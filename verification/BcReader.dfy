/**
  The bytecode reader: input arrives in pieces, and prototypes are rebuilt
  through a stack.
 */
module BcReader {
  import opened Common
  import opened BcNumbers
  import opened BcFormat
  import opened BcProto
  import opened BcPieces
  import opened BcGrammar

  /** Values read so far, before those still to be read. */
  function After<T>(a: seq<T>, r: Parsed<seq<T>>): Parsed<seq<T>> {
    match r
    case Bad => Bad
    case Got(b, t) => Got(a + b, t)
  }

  class Reader {
    const nums: Numbers
    /** p points into mem at pos; n bytes are unread there, of which the first lim belong to the block being read.
        mem is the reader's own buffer, holding sbn bytes, or a piece if sbn is 0. */
    var mem: seq<byte>
    var pos: nat
    var n: nat
    var lim: nat
    var sbn: nat
    var eof: bool
    /** The pieces the callback has still to deliver. */
    var pieces: seq<seq<byte>>
    var stack: seq<Loaded>

    constructor (nums: Numbers, first: seq<byte>, pieces: seq<seq<byte>>)
      requires forall i :: 0 <= i < |pieces| ==> pieces[i] != []
      ensures Valid() && lim == n && Stream() == first + Concat(pieces) && this.nums == nums && !eof && stack == []
      ensures n == |first| && this.pieces == pieces
    {
      this.nums, mem, pos, n, lim, sbn, eof, this.pieces, stack := nums, first, 0, |first|, |first|, 0, false, pieces,
          [];
      new;
      assert mem[pos..pos + n] == first;
    }

    /** The unread bytes are a suffix of the memory they are in. */
    ghost predicate Valid()
      reads this
    {
      && lim <= n && pos + n == |mem| && (sbn == 0 || sbn == |mem|)
      && (forall i :: 0 <= i < |pieces| ==> pieces[i] != []) && (eof ==> pieces == [])
    }

    ghost function Stream(): seq<byte>
      requires Valid()
      reads this
    {
      mem[pos..] + Concat(pieces)
    }

    /** What is left of the block. */
    ghost function Left(): seq<byte>
      requires Valid()
      reads this
    {
      mem[pos..pos + lim]
    }

    // -------------------------------------------------------------- refilling

    /** Copy the remainder to the start of the own buffer. */
    method MoveDown()
      requires Valid()
      modifies this`mem, this`pos, this`sbn
      ensures Valid() && mem[pos..] == old(mem[pos..]) && sbn == n && (n > 0 ==> pos == 0)
    {
      if n > 0 {
        if sbn > 0 {
          assert pos + n == sbn;
          if n != sbn { mem := mem[pos..]; }
        } else {
          mem := mem[pos..];
        }
        pos := 0;
      }
      sbn := n;
    }

    /** Take over the next piece. */
    method NextPiece()
      requires Valid() && lim == n && sbn == n && (n > 0 ==> pos == 0) && pieces != []
      modifies this`mem, this`pos, this`n, this`lim, this`sbn, this`pieces
      ensures Valid() && lim == n && Stream() == old(Stream()) && pieces == old(pieces[1..])
    {
      var piece := pieces[0];
      if sbn > 0 {
        mem := mem + piece;
        sbn := |mem|;
      } else {
        mem := piece;
      }
      pos, n, lim := 0, |mem|, |mem|;
      pieces := pieces[1..];
      assert old(Stream()) == old(mem[pos..]) + (piece + Concat(pieces));
    }

    /** bcread_fill: read more pieces until len bytes are there. */
    method Fill(len: nat, need: bool) returns (ok: bool)
      requires Valid() && n < len && lim == n
      modifies this`mem, this`pos, this`n, this`lim, this`sbn, this`eof, this`pieces
      ensures Valid() && Stream() == old(Stream()) && lim == n
      ensures ok <==> len <= MAX_MEM && !old(eof) && (need ==> |Stream()| >= len)
      ensures ok ==> (eof <==> |Stream()| < len) && (n >= len || eof)
      ensures ok ==> pieces == Drop(old(n), old(pieces), len)
    {
      if len > MAX_MEM || eof { return false; }
      var more := true;
      while more
        invariant Valid() && Stream() == old(Stream()) && lim == n
        invariant more ==> !eof && n < len
        invariant Drop(n, pieces, len) == Drop(old(n), old(pieces), len)
        invariant !more ==> if eof then n < len && !need else n >= len
        decreases more, |pieces|
      {
        MoveDown();
        assert Stream() == old(Stream());
        if pieces == [] {
          assert Stream() == mem[pos..];
          if need { return false; }
          eof := true;
          more := false;
        } else {
          NextPiece();
          more := n < len;
        }
      }
      assert eof ==> Stream() == mem[pos..];
      ok := true;
    }

    /** bcread_need. */
    method Need(len: nat) returns (ok: bool)
      requires Valid() && lim == n && |Stream()| <= MAX_MEM
      modifies this`mem, this`pos, this`n, this`lim, this`sbn, this`eof, this`pieces
      ensures Valid() && Stream() == old(Stream()) && lim == n
      ensures ok <==> len <= |Stream()|
      ensures ok ==> n >= len && eof == old(eof) && pieces == Drop(old(n), old(pieces), len)
    {
      ok := true;
      assert eof ==> Stream() == mem[pos..];
      if n < len { ok := Fill(len, true); }
    }

    /** bcread_want: more input is welcome, but its end is no error the first time. */
    method Want(len: nat) returns (ok: bool)
      requires Valid() && lim == n && len <= MAX_MEM
      modifies this`mem, this`pos, this`n, this`lim, this`sbn, this`eof, this`pieces
      ensures Valid() && Stream() == old(Stream()) && lim == n
      ensures ok <==> !(old(eof) && |Stream()| < len)
      ensures ok ==> eof == (old(eof) || |Stream()| < len) && (n >= len || mem[pos..] == Stream())
      ensures ok ==> pieces == Drop(old(n), old(pieces), len)
    {
      ok := true;
      assert eof ==> Stream() == mem[pos..];
      if n < len {
        ok := Fill(len, false);
        assert eof ==> Stream() == mem[pos..];
      }
    }

    // -------------------------------------------------------------- numbers and blocks

    /** Some bytes of the block have been used up: t is left of it, and what lies behind it is as before. */
    twostate predicate Left1(t: seq<byte>)
      requires old(Valid())
      reads this
    {
      Valid() && Left() == t && pos + lim == old(pos + lim) && pos + n == old(pos + n) && pos >= old(pos)
    }

    /** bcread_byte. */
    method Byte() returns (b: byte)
      requires Valid() && lim > 0
      modifies this`pos, this`n, this`lim
      ensures b == old(Left())[0] && Left1(old(Left())[1..])
    {
      b := mem[pos];
      pos, n, lim := pos + 1, n - 1, lim - 1;
    }

    /** bcread_mem. */
    method Mem(len: nat) returns (r: Option<seq<byte>>)
      requires Valid()
      modifies this`pos, this`n, this`lim
      ensures match Take(old(Left()), len)
              case Bad => r.None?
              case Got(b, t) => r == Some(b) && Left1(t)
    {
      if len > lim { return None; }
      r := Some(mem[pos..pos + len]);
      assert Left()[..len] == mem[pos..pos + len] && Left()[len..] == mem[pos + len..pos + lim];
      pos, n, lim := pos + len, n - len, lim - len;
    }

    /** The bytes of a number behind its first one. */
    method MoreBytes(v0: u32, scale0: nat, max0: nat) returns (r: Option<u32>)
      requires Valid()
      modifies this`pos, this`n, this`lim
      ensures match MoreUleb(old(Left()), v0, scale0, max0)
              case Bad => r.None?
              case Got(v, t) => r == Some(v) && Left1(t)
    {
      var v: u32, scale: nat, max: nat := v0, scale0, max0;
      while true
        invariant Valid() && Left1(Left()) && MoreUleb(old(Left()), v0, scale0, max0) == MoreUleb(Left(), v, scale, max)
        decreases lim
      {
        if lim == 0 || max == 0 { return None; }
        var b := Byte();
        v := (v + b % 128 * scale) % 0x1_0000_0000;
        if b < 128 { return Some(v); }
        scale, max := scale * 128, max - 1;
      }
    }

    /** bcread_uleb128. */
    method GetUleb() returns (r: Option<u32>)
      requires Valid()
      modifies this`pos, this`n, this`lim
      ensures match ReadUleb(old(Left()))
              case Bad => r.None?
              case Got(v, t) => r == Some(v) && Left1(t)
    {
      r := MoreBytes(0, 1, 5);
    }

    /** bcread_uleb128_33. */
    method GetUleb33() returns (r: Option<u32>)
      requires Valid()
      modifies this`pos, this`n, this`lim
      ensures match ReadUleb33(old(Left()))
              case Bad => r.None?
              case Got(v, t) => r == Some(v) && Left1(t)
    {
      if lim == 0 { return None; }
      var b := Byte();
      if b < 128 { return Some(b / 2); }
      r := MoreBytes(b % 128 / 2, 64, 4);
    }

    // -------------------------------------------------------------- template tables

    /** bcread_ktabk. */
    method GetVal() returns (r: Option<Val>)
      requires Valid()
      modifies this`pos, this`n, this`lim
      ensures match ReadVal(nums, old(Left()))
              case Bad => r.None?
              case Got(v, t) => r == Some(v) && Left1(t)
    {
      hide ReadUleb;
      var tp := GetUleb();
      if tp.None? { return None; }
      if tp.value >= KTAB_STR {
        var b := Mem(tp.value - KTAB_STR);
        if b.None? { return None; }
        return Some(Str(b.value));
      } else if tp.value == KTAB_INT {
        var k := GetUleb();
        if k.None? { return None; }
        return Some(Num(nums.widen(k.value)));
      } else if tp.value == KTAB_NUM {
        var lo := GetUleb();
        if lo.None? { return None; }
        var hi := GetUleb();
        if hi.None? { return None; }
        return Some(Num(Words(lo.value, hi.value)));
      }
      return Some(if tp.value == 0 then Nil else if tp.value == 1 then False else True);
    }

    /** bcread_ktab. */
    method GetTable() returns (r: Option<LoadedTable>)
      requires Valid()
      modifies this`pos, this`n, this`lim
      ensures match ReadTable(nums, old(Left()))
              case Bad => r.None?
              case Got(t, u) => r == Some(t) && Left1(u)
    {
      hide ReadUleb;
      var narray := GetUleb();
      if narray.None? { return None; }
      var nhash := GetUleb();
      if nhash.None? { return None; }
      var a := GetVals(narray.value);
      if a.None? { return None; }
      r := GetEntries(nhash.value, LoadedTable(a.value, map[]));
    }

    method GetVals(count: nat) returns (r: Option<seq<Val>>)
      requires Valid()
      modifies this`pos, this`n, this`lim
      ensures match ReadVals(nums, old(Left()), count)
              case Bad => r.None?
              case Got(vs, t) => r == Some(vs) && Left1(t)
    {
      hide ReadVal;
      var i, a := 0, [];
      AfterNothing(ReadVals(nums, Left(), count));
      while i < count
        invariant 0 <= i <= count && Valid() && Left1(Left())
        invariant ReadVals(nums, old(Left()), count) == After(a, ReadVals(nums, Left(), count - i))
      {
        ghost var s := Left();
        var v := GetVal();
        if v.None? { return None; }
        AfterNext(a, v.value, ReadVals(nums, Left(), count - i - 1));
        a := a + [v.value];
        i := i + 1;
      }
      assert a + [] == a;
      return Some(a);
    }

    method GetEntries(count: nat, t0: LoadedTable) returns (r: Option<LoadedTable>)
      requires Valid()
      modifies this`pos, this`n, this`lim
      ensures match ReadEntries(nums, old(Left()), count, t0)
              case Bad => r.None?
              case Got(t, u) => r == Some(t) && Left1(u)
    {
      hide ReadVal;
      var i, t := 0, t0;
      while i < count
        invariant 0 <= i <= count && Valid() && Left1(Left())
        invariant ReadEntries(nums, old(Left()), count, t0) == ReadEntries(nums, Left(), count - i, t)
      {
        var key := GetVal();
        if key.None? { return None; }
        var v := GetVal();
        if v.None? { return None; }
        t := Set(nums, t, key.value, v.value);
        i := i + 1;
      }
      return Some(t);
    }

    // -------------------------------------------------------------- constants

    /** bcread_kgc. */
    method GetConsts(count: nat) returns (r: Option<seq<LoadedConst>>)
      requires Valid()
      modifies this`pos, this`n, this`lim, this`stack
      ensures match ReadConsts(nums, old(Left()), count, old(stack))
              case Bad => r.None?
              case Got(w, t) => r == Some(w.consts) && stack == w.stack && Left1(t)
    {
      hide ReadUleb;
      hide ReadTable;
      var i, ks := 0, [];
      AfterNoConst(ReadConsts(nums, Left(), count, stack));
      while i < count
        invariant 0 <= i <= count && Valid() && Left1(Left())
        invariant ReadConsts(nums, old(Left()), count, old(stack))
                  == AfterConsts(ks, ReadConsts(nums, Left(), count - i, stack))
      {
        var k: LoadedConst;
        var tp := GetUleb();
        if tp.None? { return None; }
        if tp.value >= KGC_STR {
          var b := Mem(tp.value - KGC_STR);
          if b.None? { return None; }
          k := LStr(b.value);
        } else if tp.value == KGC_TAB {
          var t := GetTable();
          if t.None? { return None; }
          k := LTab(t.value);
        } else if tp.value == KGC_CHILD && |stack| > 0 {
          k := LChild(stack[|stack| - 1]);
          stack := stack[..|stack| - 1];
        } else {
          return None;
        }
        AfterConst(ks, k, ReadConsts(nums, Left(), count - i - 1, stack));
        ks := ks + [k];
        i := i + 1;
      }
      assert ks + [] == ks;
      return Some(ks);
    }

    /** bcread_knum. */
    method GetNums(count: nat) returns (r: Option<seq<Words>>)
      requires Valid()
      modifies this`pos, this`n, this`lim
      ensures match ReadNums(nums, old(Left()), count)
              case Bad => r.None?
              case Got(ws, t) => r == Some(ws) && Left1(t)
    {
      hide ReadNum;
      var i, a := 0, [];
      AfterNothing(ReadNums(nums, Left(), count));
      while i < count
        invariant 0 <= i <= count && Valid() && Left1(Left())
        invariant ReadNums(nums, old(Left()), count) == After(a, ReadNums(nums, Left(), count - i))
      {
        var w := GetNum();
        if w.None? { return None; }
        AfterNext(a, w.value, ReadNums(nums, Left(), count - i - 1));
        a := a + [w.value];
        i := i + 1;
      }
      assert a + [] == a;
      return Some(a);
    }

    method GetNum() returns (r: Option<Words>)
      requires Valid()
      modifies this`pos, this`n, this`lim
      ensures match ReadNum(nums, old(Left()))
              case Bad => r.None?
              case Got(w, t) => r == Some(w) && Left1(t)
    {
      hide ReadUleb;
      if lim == 0 { return None; }
      var isnum := mem[pos] % 2 == 1;
      var lo := GetUleb33();
      if lo.None? { return None; }
      if isnum {
        var hi := GetUleb();
        if hi.None? { return None; }
        return Some(Words(lo.value, hi.value));
      }
      return Some(nums.widen(lo.value));
    }

    // -------------------------------------------------------------- prototypes

    method GetDebugHead(h: Head, strip: bool) returns (r: Option<Head>)
      requires Valid()
      modifies this`pos, this`n, this`lim
      ensures match ReadDebugHead(h, old(Left()), strip)
              case Bad => r.None?
              case Got(h1, t) => r == Some(h1) && Left1(t)
    {
      hide ReadUleb;
      if strip { return Some(h); }
      var sizedbg := GetUleb();
      if sizedbg.None? { return None; }
      if sizedbg.value == 0 { return Some(h); }
      var firstline := GetUleb();
      if firstline.None? { return None; }
      var numline := GetUleb();
      if numline.None? { return None; }
      return Some(h.(sizedbg := sizedbg.value, firstline := firstline.value, numline := numline.value));
    }

    method GetHead(strip: bool) returns (r: Option<Head>)
      requires Valid()
      modifies this`pos, this`n, this`lim
      ensures match ReadHead(old(Left()), strip)
              case Bad => r.None?
              case Got(h, t) => r == Some(h) && Left1(t)
    {
      hide ReadUleb;
      hide ReadDebugHead;
      if lim < 4 { return None; }
      ghost var s := Left();
      var flags := Byte();
      var numparams := Byte();
      var framesize := Byte();
      var sizeuv := Byte();
      assert s[1..][1..][1..][1..] == s[4..] && s[1..][0] == s[1] && s[1..][1..][0] == s[2]
             && s[1..][1..][1..][0] == s[3];
      var sizekgc := GetUleb();
      if sizekgc.None? { return None; }
      var sizekn := GetUleb();
      if sizekn.None? { return None; }
      var sizebc := GetUleb();
      if sizebc.None? { return None; }
      r := GetDebugHead(Head(flags, numparams, framesize, sizeuv, sizekgc.value, sizekn.value, sizebc.value, 0, 0, 0),
                        strip);
    }

    /** bcread_proto behind the length. */
    method GetBody(strip: bool) returns (r: Option<Loaded>)
      requires Valid()
      modifies this`pos, this`n, this`lim, this`stack
      ensures match ReadBody(nums, old(Left()), old(stack), strip)
              case Bad => r.None?
              case Got(w, t) => r == Some(w.p) && stack == w.stack && Left1([])
    {
      hide ReadHead;
      hide ReadConstants;
      var h := GetHead(strip);
      if h.None? { return None; }
      var bc := Mem(4 * h.value.sizebc);
      if bc.None? { return None; }
      var uv := Mem(2 * h.value.sizeuv);
      if uv.None? { return None; }
      r := GetConstants(h.value, bc.value, uv.value);
    }

    method GetConstants(h: Head, bc: seq<byte>, uv: seq<byte>) returns (r: Option<Loaded>)
      requires Valid()
      modifies this`pos, this`n, this`lim, this`stack
      ensures match ReadConstants(nums, h, bc, uv, old(Left()), old(stack))
              case Bad => r.None?
              case Got(w, t) => r == Some(w.p) && stack == w.stack && t == [] && Left1([])
    {
      hide ReadConsts;
      hide ReadNums;
      var kgc := GetConsts(h.sizekgc);
      if kgc.None? { return None; }
      var kn := GetNums(h.sizekn);
      if kn.None? { return None; }
      var dbg := Mem(h.sizedbg);
      if dbg.None? { return None; }
      if lim != 0 { return None; }
      return Some(Loaded(h.flags, h.numparams, h.framesize, bc, uv, kgc.value, kn.value, h.firstline, h.numline,
                         dbg.value));
    }

    /** bcread_uleb128 outside of a block, when enough input has been asked for. */
    method GetLength() returns (r: Option<u32>)
      requires Valid() && lim == n && (n >= 5 || mem[pos..] == Stream())
      modifies this`pos, this`n, this`lim
      ensures match ReadUleb(old(Stream()))
              case Bad => r.None?
              case Got(v, t) => r == Some(v) && Valid() && lim == n && Stream() == t
    {
      hide ReadUleb;
      ghost var a, b := mem[pos..], Concat(pieces);
      assert Left() == a;
      UlebPrefix(a, b);
      r := GetUleb();
      assert r.Some? ==> Left() == mem[pos..];
    }

    /** A body of a given length. */
    method GetBlock(len: nat, strip: bool) returns (r: Option<Loaded>)
      requires Valid() && lim == n >= len
      modifies this`pos, this`n, this`lim, this`stack
      ensures len <= |old(Stream())|
      ensures match ReadBody(nums, old(Stream())[..len], old(stack), strip)
              case Bad => r.None?
              case Got(w, t) => r == Some(w.p) && stack == w.stack && Valid() && lim == n
                                && Stream() == old(Stream())[len..]
    {
      hide ReadBody;
      hide Concat;
      lim := len;
      Sliced(mem, pos, lim, Concat(pieces));
      assert Left() == old(Stream())[..len];
      r := GetBody(strip);
      lim := n;
    }

    /** The length of the next prototype; zero at the end. */
    method StartProto() returns (ok: bool, len: u32)
      requires Valid() && lim == n
      modifies this`mem, this`pos, this`n, this`lim, this`sbn, this`eof, this`pieces
      ensures var s := old(Stream());
              if (s == [] || s[0] != 0) && |s| < 5 && old(eof) then !ok
              else match ReadUleb(s)
                case Bad => !ok
                case Got(v, t) => ok && len == v && Valid() && lim == n && Stream() == t
                                  && (v != 0 ==> eof == (old(eof) || |s| < 5))
      ensures ok ==> pieces == if old(n) > 0 && old(Stream())[0] == 0 then old(pieces) else Drop(old(n), old(pieces), 5)
    {
      hide ReadUleb;
      hide Concat;
      len := 0;
      ghost var s := Stream();
      AtTheEnd();
      ZeroLength(s);
      if n > 0 && mem[pos] == 0 {
        Sliced(mem, pos, 1, Concat(pieces));
        pos, n, lim := pos + 1, n - 1, n - 1;
        return true, 0;
      }
      ok := Want(5);
      if !ok { return; }
      var l := GetLength();
      if l.None? { return false, 0; }
      len := l.value;
    }

    lemma AtTheEnd()
      requires Valid()
      ensures eof ==> Stream() == mem[pos..]
    {
    }

    /** One round of the prototype loop: the next prototype, or None at the end. */
    method NextProto(strip: bool) returns (ok: bool, r: Option<Loaded>)
      requires Valid() && lim == n && |Stream()| <= MAX_MEM
      modifies this
      ensures ok ==> Valid() && lim == n && |Stream()| <= |old(Stream())|
      ensures !ok ==> ReadTrees(nums, old(Stream()), old(stack), strip, old(eof)) == Bad
      ensures ok && r.None? ==> ReadTrees(nums, old(Stream()), old(stack), strip, old(eof)) == Got(stack, Stream())
      ensures ok && r.Some? ==> ReadTrees(nums, old(Stream()), old(stack), strip, old(eof))
                                == ReadTrees(nums, Stream(), stack + [r.value], strip, eof)
                                && |Stream()| < |old(Stream())|
      ensures ok && r.Some? ==>
                && |Stream()| + 8 <= |old(Stream())|
                && pieces == Drop(old(n), old(pieces), |old(Stream())| - |Stream()|)
                && Terminator(nums, old(Stream()), old(stack), strip)
                   == Terminator(nums, Stream(), stack + [r.value], strip)
      ensures ok && r.None? ==>
                && EndsAt(old(Stream()), Stream())
                && pieces == (if old(n) > 0 && old(Stream())[0] == 0 then old(pieces) else Drop(old(n), old(pieces), 5))
                && Terminator(nums, old(Stream()), old(stack), strip) == old(Stream()) && stack == old(stack)
    {
      hide ReadUleb;
      hide ReadBody;
      hide Concat;
      hide ReadTrees;
      hide Terminator;
      hide Drop;
      hide Come;
      ghost var s := Stream();
      TreesUnfold(nums, s, stack, strip, eof);
      TerminatorUnfolds(nums, s, stack, strip);
      ZeroLength(s);
      UlebShrinks(s);
      ComeDrop(n, pieces, 5);
      r := None;
      var len;
      ok, len := StartProto();
      if !ok || len == 0 { return; }
      DropDrop(old(n), old(pieces), 5, |s| - |Stream()|, len);
      ok := Need(len);
      if !ok { return; }
      BodyLong(nums, Stream()[..len], stack, strip);
      r := GetBlock(len, strip);
      ok := r.Some?;
    }

    // -------------------------------------------------------------- dumps

    /** Three bytes, when enough input has been asked for. */
    method GetMagic() returns (r: Option<seq<byte>>)
      requires Valid() && lim == n && (n >= 3 || mem[pos..] == Stream())
      modifies this`pos, this`n, this`lim
      ensures match Take(old(Stream()), 3)
              case Bad => r.None?
              case Got(b, t) => r == Some(b) && Valid() && lim == n && Stream() == t
    {
      hide Concat;
      if n < 3 { return None; }
      Sliced(mem, pos, 3, Concat(pieces));
      r := Some([mem[pos], mem[pos + 1], mem[pos + 2]]);
      assert mem[pos..pos + 3] == r.value;
      pos, n, lim := pos + 3, n - 3, n - 3;
    }

    /** The name of the chunk, unless it is stripped. */
    method GetName() returns (r: Option<seq<byte>>)
      requires Valid() && lim == n && |Stream()| <= MAX_MEM && (n >= 5 || mem[pos..] == Stream())
      modifies this`mem, this`pos, this`n, this`lim, this`sbn, this`eof, this`pieces
      ensures match ReadUleb(old(Stream()))
              case Bad => r.None?
              case Got(len, t) =>
                match Take(t, len)
                case Bad => r.None?
                case Got(b, u) => r == Some(b) && Valid() && lim == n && Stream() == u && eof == old(eof)
      ensures r.Some?
              ==> |Stream()| <= |old(Stream())| && pieces == Drop(old(n), old(pieces), |old(Stream())| - |Stream()|)
    {
      hide ReadUleb;
      hide Concat;
      hide Drop;
      UlebShrinks(Stream());
      var len := GetLength();
      if len.None? { return None; }
      DropShift(old(n), pieces, old(n) - n, len.value);
      var ok := Need(len.value);
      if !ok { return None; }
      Sliced(mem, pos, len.value, Concat(pieces));
      assert Left()[..len.value] == mem[pos..pos + len.value];
      r := Mem(len.value);
    }

    /** bcread_header: it accepts exactly the streams that begin with a header, and finds the format wrong exactly for
        other magic bytes or unknown flags. */
    method GetHeader(chunkarg: seq<byte>) returns (r: Outcome<Header>)
      requires Valid() && lim == n && !eof && |Stream()| <= MAX_MEM
      modifies this`mem, this`pos, this`n, this`lim, this`sbn, this`eof, this`pieces
      ensures match ReadHeader(old(Stream()), chunkarg)
              case WrongFormat => r == WrongFormat
              case Broken => r == Broken
              case Ok(a) => r == Ok(a.h) && Valid() && lim == n && Stream() == a.rest && eof == (|old(Stream())| < 13)
      ensures r.Ok? ==> |Stream()| + 4 <= |old(Stream())|
                        && pieces == Drop(old(n), old(pieces), Max(13, |old(Stream())| - |Stream()|))
      ensures r == WrongFormat <==> Foreign(old(Stream()))
      ensures forall h :: r == Ok(h) <==> BeginsWith(old(Stream()), h, chunkarg)
    {
      hide Foreign;
      hide BeginsWith;
      hide ReadHeader;
      ForeignExactly(Stream(), chunkarg);
      HeaderResult(Stream(), chunkarg);
      r := ParseHeader(chunkarg);
    }

    /** The steps of bcread_header, as a function of the stream. */
    method ParseHeader(chunkarg: seq<byte>) returns (r: Outcome<Header>)
      requires Valid() && lim == n && !eof && |Stream()| <= MAX_MEM
      modifies this`mem, this`pos, this`n, this`lim, this`sbn, this`eof, this`pieces
      ensures match ReadHeader(old(Stream()), chunkarg)
              case WrongFormat => r == WrongFormat
              case Broken => r == Broken
              case Ok(a) => r == Ok(a.h) && Valid() && lim == n && Stream() == a.rest && eof == (|old(Stream())| < 13)
      ensures r.Ok? ==> |Stream()| + 4 <= |old(Stream())|
                        && pieces == Drop(old(n), old(pieces), Max(13, |old(Stream())| - |Stream()|))
    {
      hide ReadUleb;
      hide Concat;
      hide Drop;
      hide Come;
      ghost var s := Stream();
      ComeDrop(n, pieces, 13);
      var ok := Want(13);
      var m := GetMagic();
      if m.None? { return Broken; }
      if m.value[0] != HEAD2 || m.value[1] != HEAD3 || m.value[2] != VERSION { return WrongFormat; }
      assert s[3..] == Stream();
      UlebShrinks(s[3..]);
      var flags := GetLength();
      if flags.None? { return Broken; }
      if flags.value >= 8 || flags.value % 2 == 1 { return WrongFormat; }
      if flags.value / 2 % 2 == 1 { return Ok(Header(flags.value, chunkarg)); }
      ghost var k := |s| - |Stream()|;
      var name := GetName();
      if name.None? { return Broken; }
      DropDrop(old(n), old(pieces), 13, k, |s| - k - |Stream()|);
      return Ok(Header(flags.value, name.value));
    }

    /** The prototype loop of lj_bcread, in an input of `total` bytes that was cut as `have` and `cuts` say. */
    method GetProtos(strip: bool, ghost have: nat, ghost cuts: seq<seq<byte>>, ghost total: nat) returns (ok: bool)
      requires Valid() && lim == n && stack == [] && |Stream()| <= MAX_MEM
      requires |Stream()| + 4 <= total == have + |Concat(cuts)|
      requires pieces == Drop(have, cuts, Max(13, total - |Stream()|))
      modifies this
      ensures match ReadTrees(nums, old(Stream()), [], strip, old(eof))
              case Bad => !ok
              case Got(st, t) => ok && stack == st && Valid() && Stream() == t
      ensures ok && |stack| == 1 ==>
                (Clean(have, cuts, Terminator(nums, old(Stream()), [], strip), Stream()) <==> n == 0)
    {
      hide ReadTrees;
      hide Terminator;
      hide Concat;
      hide Drop;
      hide Come;
      hide Clean;
      hide EndsAt;
      ghost var s1, e1 := Stream(), eof;
      while true
        invariant Valid() && lim == n && |Stream()| <= MAX_MEM
        invariant ReadTrees(nums, s1, [], strip, e1) == ReadTrees(nums, Stream(), stack, strip, eof)
        invariant Terminator(nums, s1, [], strip) == Terminator(nums, Stream(), stack, strip)
        invariant |Stream()| + (if stack == [] then 4 else 12) <= total
        invariant pieces == Drop(have, cuts, Max(13, total - |Stream()|))
        decreases |Stream()|
      {
        ghost var t := Stream();
        ComeDrop(have, cuts, Max(13, total - |t|));
        var p;
        ok, p := NextProto(strip);
        if !ok { return; }
        if p.None? {
          DropDrop(have, cuts, Max(13, total - |t|), total - |t|, 5);
          if |stack| == 1 { TakenAtEnd(have, cuts, t, Stream(), pieces, n); }
          return;
        }
        DropDrop(have, cuts, Max(13, total - |t|), total - |t|, |t| - |Stream()|);
        stack := stack + [p.value];
      }
    }

    /** lj_bcread: what is read depends on the stream only, not on how it was cut into pieces, except that
        bytes behind the dump are an error when the reader has taken some of them.  It is read exactly if it is
        a dump, which is one tree of prototypes between a header and a length of zero. */
    method Read(chunkarg: seq<byte>) returns (r: Outcome<Chunk>)
      requires Valid() && lim == n && !eof && stack == [] && |Stream()| <= MAX_MEM
      modifies this
      ensures match ReadDump(nums, old(Stream()), chunkarg)
              case WrongFormat => r == WrongFormat
              case Broken => r == Broken
              case Ok(x) => Valid() && Stream() == x.1
                            && r == if Clean(old(n), old(pieces), DumpTerminator(nums, old(Stream()), chunkarg), x.1)
                                    then Ok(x.0) else Broken
      ensures r == WrongFormat <==> Foreign(old(Stream()))
      ensures forall c :: r == Ok(c) <==> Readable(nums, old(Stream()), chunkarg, old(n), old(pieces), c)
    {
      hide Foreign;
      hide Readable;
      hide ReadDump;
      hide DumpTerminator;
      hide Concat;
      hide Clean;
      RefusedExactly(nums, Stream(), chunkarg);
      DumpResult(nums, Stream(), chunkarg, n, pieces);
      r := ParseDump(chunkarg);
    }

    /** The steps of lj_bcread, as a function of the stream. */
    method ParseDump(chunkarg: seq<byte>) returns (r: Outcome<Chunk>)
      requires Valid() && lim == n && !eof && stack == [] && |Stream()| <= MAX_MEM
      modifies this
      ensures match ReadDump(nums, old(Stream()), chunkarg)
              case WrongFormat => r == WrongFormat
              case Broken => r == Broken
              case Ok(x) => Valid() && Stream() == x.1
                            && r == if Clean(old(n), old(pieces), DumpTerminator(nums, old(Stream()), chunkarg), x.1)
                                    then Ok(x.0) else Broken
    {
      hide Foreign;
      hide BeginsWith;
      hide ReadHeader;
      hide ReadTrees;
      hide Terminator;
      hide Concat;
      hide Drop;
      hide Clean;
      ghost var s := Stream();
      var h := GetHeader(chunkarg);
      if h.WrongFormat? { return WrongFormat; }
      if h.Broken? { return Broken; }
      HeaderShrinks(s, chunkarg);
      var ok := GetProtos(Strips(h.value), old(n), old(pieces), |s|);
      if !ok || n > 0 || |stack| != 1 { return Broken; }
      var p := stack[0];
      stack := [];
      return Ok(Chunk(h.value.name, p));
    }
  }

  /** The header that some bytes begin with. */
  ghost predicate BeginsWith(s: seq<byte>, h: Header, chunkarg: seq<byte>) {
    exists b, t :: s == b + t && HeaderCode(b, h, chunkarg)
  }

  /** Some bytes are a dump, perhaps with others behind it, of which the reader takes none. */
  ghost predicate Readable(nums: Numbers, s: seq<byte>, chunkarg: seq<byte>, have: nat, pieces: seq<seq<byte>>,
                           c: Chunk) {
    exists end, rest :: DumpCode(nums, s, chunkarg, c, end, rest) && Clean(have, pieces, end + rest, rest)
  }

  lemma HeaderResult(s: seq<byte>, chunkarg: seq<byte>)
    ensures forall h :: BeginsWith(s, h, chunkarg) <==> exists t :: ReadHeader(s, chunkarg) == Ok(AfterHeader(h, t))
  {
    hide ReadHeader;
    hide HeaderCode;
    forall h
      ensures BeginsWith(s, h, chunkarg) <==> exists t :: ReadHeader(s, chunkarg) == Ok(AfterHeader(h, t))
    {
      if b, t :| s == b + t && HeaderCode(b, h, chunkarg) {
        HeaderReads(b, h, chunkarg, t);
      }
      if t :| ReadHeader(s, chunkarg) == Ok(AfterHeader(h, t)) {
        var b := HeaderFinds(s, chunkarg);
      }
    }
  }

  lemma DumpResult(nums: Numbers, s: seq<byte>, chunkarg: seq<byte>, have: nat, pieces: seq<seq<byte>>)
    ensures forall c :: Readable(nums, s, chunkarg, have, pieces, c)
                        <==> match ReadDump(nums, s, chunkarg)
                             case Ok(x) => c == x.0 && Clean(have, pieces, DumpTerminator(nums, s, chunkarg), x.1)
                             case _ => false
  {
    hide ReadDump;
    hide DumpTerminator;
    hide DumpCode;
    hide Clean;
    forall c
      ensures Readable(nums, s, chunkarg, have, pieces, c)
              <==> match ReadDump(nums, s, chunkarg)
                   case Ok(x) => c == x.0 && Clean(have, pieces, DumpTerminator(nums, s, chunkarg), x.1)
                   case _ => false
    {
      if end, rest :| DumpCode(nums, s, chunkarg, c, end, rest) && Clean(have, pieces, end + rest, rest) {
        DumpReads(nums, s, chunkarg, c, end, rest);
      }
      if ReadDump(nums, s, chunkarg).Ok? {
        var end := DumpFinds(nums, s, chunkarg);
      }
    }
  }

  /** What the buffer holds behind the terminator. */
  lemma TakenAtEnd(have: nat, cuts: seq<seq<byte>>, t: seq<byte>, rest: seq<byte>, pieces: seq<seq<byte>>, n: nat)
    requires |t| + 12 <= have + |Concat(cuts)| && EndsAt(t, rest)
    requires n + |Concat(pieces)| == |rest|
    requires pieces == Drop(have, cuts, Asked(have, cuts, t, have + |Concat(cuts)| - |t|))
    ensures Clean(have, cuts, t, rest) <==> n == 0
  {
    hide Drop;
    hide Come;
    hide Clean;
    var c := have + |Concat(cuts)| - |t|;
    CleanExactly(have, cuts, t, rest);
    ComeDrop(have, cuts, Asked(have, cuts, t, c));
  }

  lemma HeaderShrinks(s: seq<byte>, chunkarg: seq<byte>)
    ensures var r := ReadHeader(s, chunkarg); r.Ok? ==> |r.value.rest| <= |s|
  {
    if |s| >= 3 {
      UlebShrinks(s[3..]);
      var r := ReadUleb(s[3..]);
      if r.Got? { UlebShrinks(r.rest); }
    }
    hide ReadUleb;
  }

  /** A terminator is a length of zero: one zero byte, or up to five bytes. */
  predicate EndsAt(t: seq<byte>, rest: seq<byte>) {
    |rest| < |t| <= |rest| + 5 && (t[0] == 0 ==> |rest| == |t| - 1)
  }

  /** The first bytes of a stream, and what is behind them. */
  lemma Sliced(mem: seq<byte>, pos: nat, len: nat, more: seq<byte>)
    requires pos + len <= |mem|
    ensures mem[pos..pos + len] == (mem[pos..] + more)[..len]
    ensures mem[pos + len..] + more == (mem[pos..] + more)[len..]
  {
  }

  lemma UlebPrefix(a: seq<byte>, b: seq<byte>)
    requires |a| >= 5 || b == []
    ensures ReadUleb(a + b) == match ReadUleb(a) case Bad => Bad case Got(x, t) => Got(x, t + b)
  {
    MorePrefix(a, b, 0, 1, 5);
  }

  lemma AfterNothing<T>(r: Parsed<seq<T>>)
    ensures After([], r) == r
  {
    if r.Got? { assert [] + r.value == r.value; }
  }

  lemma AfterNoConst(r: Parsed<WithStack>)
    ensures AfterConsts([], r) == r
  {
    if r.Got? { assert [] + r.value.consts == r.value.consts; }
  }

  lemma AfterNext<T>(a: seq<T>, v: T, r: Parsed<seq<T>>)
    ensures After(a, After([v], r)) == After(a + [v], r)
  {
    if r.Got? { assert a + ([v] + r.value) == a + [v] + r.value; }
  }

  function AfterConsts(a: seq<LoadedConst>, r: Parsed<WithStack>): Parsed<WithStack> {
    match r
    case Bad => Bad
    case Got(w, t) => Got(WithStack(a + w.consts, w.stack), t)
  }

  lemma AfterConst(a: seq<LoadedConst>, k: LoadedConst, r: Parsed<WithStack>)
    ensures AfterConsts(a, Before(k, r)) == AfterConsts(a + [k], r)
  {
    if r.Got? { assert a + ([k] + r.value.consts) == a + [k] + r.value.consts; }
  }

  /** Reading the dump of a prototype rebuilds it, for every way to cut the input into pieces, unless the
      reader takes bytes from behind the dump. */
  method LoadDump(nums: Numbers, p: Proto, name: seq<byte>, strip: bool, chunkarg: seq<byte>, more: seq<byte>,
                  first: seq<byte>, pieces: seq<seq<byte>>)
    returns (r: Outcome<Chunk>)
    requires ProtoOk(nums, p) && |name| < 0x1_0000_0000 && |WriteDump(nums, p, name, strip) + more| <= MAX_MEM
    requires [HEAD1] + (first + Concat(pieces)) == WriteDump(nums, p, name, strip) + more
    requires forall i :: 0 <= i < |pieces| ==> pieces[i] != []
    ensures r == if Clean(|first|, pieces, [0] + more, more)
                 then Ok(Chunk(if strip then chunkarg else name, Load(p, strip))) else Broken
  {
    hide ProtoOk;
    hide Load;
    hide WriteDump;
    hide ReadDump;
    hide DumpTerminator;
    hide Concat;
    DumpRoundTrip(nums, p, name, strip, chunkarg, more);
    EndsInZero(nums, p, name, strip);
    hide Clean;
    assert (WriteDump(nums, p, name, strip) + more)[1..] == WriteDump(nums, p, name, strip)[1..] + more;
    assert WriteDump(nums, p, name, strip)[1..] + more == first + Concat(pieces);
    var reader := new Reader(nums, first, pieces);
    r := reader.Read(chunkarg);
  }

  lemma EndsInZero(nums: Numbers, p: Proto, name: seq<byte>, strip: bool)
    ensures var d := WriteDump(nums, p, name, strip); |d| >= 2 && d[0] == HEAD1 && d[|d|-1] == 0
  {
    hide WriteHeader;
    hide WriteTree;
  }

  /** A byte behind a dump is no error when the reader gets the dump in one piece, and is one when the
      dump's last byte comes in a piece of its own. */
  method TwoCuts(nums: Numbers, p: Proto, name: seq<byte>, strip: bool, chunkarg: seq<byte>, junk: byte)
    returns (a: Outcome<Chunk>, b: Outcome<Chunk>)
    requires ProtoOk(nums, p) && |name| < 0x1_0000_0000 && 15 <= |WriteDump(nums, p, name, strip)| < MAX_MEM
    ensures a == Ok(Chunk(if strip then chunkarg else name, Load(p, strip))) && b == Broken
  {
    hide ProtoOk;
    hide Load;
    hide WriteDump;
    EndsInZero(nums, p, name, strip);
    var dump := WriteDump(nums, p, name, strip);
    var body := dump[1..|dump|-1];
    assert Concat([[junk]]) == [junk];
    assert Concat([[0], [junk]]) == [0, junk];
    assert [HEAD1] + (dump[1..] + [junk]) == dump + [junk];
    assert [HEAD1] + (body + [0, junk]) == dump + [junk];
    BoundaryRangeIf(|dump| - 1, [[junk]], |dump| - 2);
    assert Boundary(|dump| - 1, [[junk]], |dump| - 1) && Boundary(|dump| - 2, [[0], [junk]], |dump| - 2);
    hide Boundary;
    hide Concat;
    a := LoadDump(nums, p, name, strip, chunkarg, [junk], dump[1..], [[junk]]);
    b := LoadDump(nums, p, name, strip, chunkarg, [junk], body, [[0], [junk]]);
  }
}
