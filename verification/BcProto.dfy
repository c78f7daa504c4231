/**
  Prototypes in bytecode dumps: constants, bodies, trees and whole dumps.
  Children are written before their parent, and the reader collects them from a
  stack.
 */
module BcProto {
  import opened Common
  import opened BcNumbers
  import opened BcFormat

  // ---------------------------------------------------------------- garbage-collected constants

  function WriteConst(nums: Numbers, c: Const): seq<byte> {
    match c
    case KStr(b) => Uleb(KGC_STR + |b|) + b
    case KTab(t) => [KGC_TAB] + WriteTable(nums, t)
    case KChild(_) => [KGC_CHILD]
  }

  /** bcwrite_kgc. */
  function WriteConsts(nums: Numbers, ks: seq<Const>): seq<byte> {
    if ks == [] then [] else WriteConst(nums, ks[0]) + WriteConsts(nums, ks[1..])
  }

  datatype WithStack = WithStack(consts: seq<LoadedConst>, stack: seq<Loaded>)

  /** bcread_kgc: a child is popped off the stack.  Constants of the foreign function interface are not modelled. */
  function ReadConsts(nums: Numbers, s: seq<byte>, n: nat, stack: seq<Loaded>): Parsed<WithStack>
    decreases n
  {
    if n == 0 then Got(WithStack([], stack), s)
    else match ReadUleb(s)
      case Bad => Bad
      case Got(tp, t) =>
        if tp >= KGC_STR then
          match Take(t, tp - KGC_STR)
          case Bad => Bad
          case Got(b, t1) => Before(LStr(b), ReadConsts(nums, t1, n - 1, stack))
        else if tp == KGC_TAB then
          match ReadTable(nums, t)
          case Bad => Bad
          case Got(lt, t1) => Before(LTab(lt), ReadConsts(nums, t1, n - 1, stack))
        else if tp == KGC_CHILD && stack != [] then
          Before(LChild(stack[|stack| - 1]), ReadConsts(nums, t, n - 1, stack[..|stack| - 1]))
        else Bad
  }

  function Before(c: LoadedConst, r: Parsed<WithStack>): Parsed<WithStack> {
    match r
    case Bad => Bad
    case Got(w, t) => Got(WithStack([c] + w.consts, w.stack), t)
  }

  // ---------------------------------------------------------------- number constants

  /** One number of bcwrite_knum. */
  function WriteNum(nums: Numbers, w: Words): seq<byte> {
    var k := nums.narrow(w);
    if k.Some? then Uleb33(0, k.value) else Uleb33(1, w.lo) + Uleb(w.hi)
  }

  function WriteNums(nums: Numbers, ws: seq<Words>): seq<byte> {
    if ws == [] then [] else WriteNum(nums, ws[0]) + WriteNums(nums, ws[1..])
  }

  function ReadNum(nums: Numbers, s: seq<byte>): Parsed<Words> {
    match ReadUleb33(s)
    case Bad => Bad
    case Got(lo, t) =>
      if s != [] && s[0] % 2 == 1 then
        match ReadUleb(t)
        case Bad => Bad
        case Got(hi, t1) => Got(Words(lo, hi), t1)
      else Got(nums.widen(lo), t)
  }

  /** bcread_knum. */
  function ReadNums(nums: Numbers, s: seq<byte>, n: nat): Parsed<seq<Words>>
    decreases n
  {
    if n == 0 then Got([], s)
    else match ReadNum(nums, s)
      case Bad => Bad
      case Got(w, t) =>
        match ReadNums(nums, t, n - 1)
        case Bad => Bad
        case Got(ws, t1) => Got([w] + ws, t1)
  }

  lemma {:induction false} NumsRoundTrip(nums: Numbers, ws: seq<Words>, t: seq<byte>)
    requires forall w :: w in ws ==> Exact(nums, w)
    ensures ReadNums(nums, WriteNums(nums, ws) + t, |ws|) == Got(ws, t)
  {
    hide WriteNum;
    hide ReadNum;
    if ws != [] {
      var rest := WriteNums(nums, ws[1..]) + t;
      assert WriteNums(nums, ws) + t == WriteNum(nums, ws[0]) + rest;
      NumRoundTrip(nums, ws[0], rest);
      NumsRoundTrip(nums, ws[1..], t);
      assert [ws[0]] + ws[1..] == ws;
    }
  }

  lemma NumRoundTrip(nums: Numbers, w: Words, t: seq<byte>)
    requires Exact(nums, w)
    ensures ReadNum(nums, WriteNum(nums, w) + t) == Got(w, t)
  {
    hide Uleb;
    hide Uleb33;
    hide ReadUleb;
    hide ReadUleb33;
    var k := nums.narrow(w);
    if k.Some? {
      Uleb33RoundTrip(0, k.value, t);
    } else {
      var rest := Uleb(w.hi) + t;
      assert WriteNum(nums, w) + t == Uleb33(1, w.lo) + rest;
      Uleb33RoundTrip(1, w.lo, rest);
      UlebRoundTrip(w.hi, t);
    }
  }

  // ---------------------------------------------------------------- bodies

  /** The debug part of a prototype's header. */
  function WriteDebugHead(p: Proto, strip: bool): seq<byte> {
    if strip then [] else if |p.dbg| == 0 then Uleb(0) else Uleb(|p.dbg|) + Uleb(p.firstline) + Uleb(p.numline)
  }

  function WriteHead(p: Proto, strip: bool): seq<byte> {
    [p.flags % 8, p.numparams, p.framesize, |p.uv| / 2 % 256] + Uleb(|p.kgc|) + Uleb(|p.kn|) + Uleb(|p.bc| / 4)
        + WriteDebugHead(p, strip)
  }

  /** A prototype without its children. */
  function WriteBody(nums: Numbers, p: Proto, strip: bool): seq<byte> {
    WriteHead(p, strip) + p.bc + p.uv + WriteConsts(nums, p.kgc) + WriteNums(nums, p.kn) + (if strip then [] else p.dbg)
  }

  datatype Head = Head(flags: byte, numparams: byte, framesize: byte, sizeuv: byte, sizekgc: u32, sizekn: u32,
                       sizebc: u32,
                       sizedbg: u32, firstline: u32, numline: u32)

  function ReadDebugHead(h: Head, s: seq<byte>, strip: bool): Parsed<Head> {
    if strip then Got(h, s)
    else match ReadUleb(s)
      case Bad => Bad
      case Got(sizedbg, s1) =>
        if sizedbg == 0 then Got(h, s1)
        else match ReadUleb(s1)
          case Bad => Bad
          case Got(firstline, s2) =>
            match ReadUleb(s2)
            case Bad => Bad
            case Got(numline, s3) => Got(h.(sizedbg := sizedbg, firstline := firstline, numline := numline), s3)
  }

  function ReadHead(s: seq<byte>, strip: bool): Parsed<Head> {
    if |s| < 4 then Bad
    else match ReadUleb(s[4..])
      case Bad => Bad
      case Got(sizekgc, s1) =>
        match ReadUleb(s1)
        case Bad => Bad
        case Got(sizekn, s2) =>
          match ReadUleb(s2)
          case Bad => Bad
          case Got(sizebc, s3) => ReadDebugHead(Head(s[0], s[1], s[2], s[3], sizekgc, sizekn, sizebc, 0, 0, 0), s3,
                                                strip)
  }

  datatype Popped = Popped(p: Loaded, stack: seq<Loaded>)

  /** bcread_proto behind the length: the body must be used up exactly. */
  function ReadBody(nums: Numbers, s: seq<byte>, stack: seq<Loaded>, strip: bool): Parsed<Popped> {
    match ReadHead(s, strip)
    case Bad => Bad
    case Got(h, s1) =>
      match Take(s1, 4 * h.sizebc)
      case Bad => Bad
      case Got(bc, s2) =>
        match Take(s2, 2 * h.sizeuv)
        case Bad => Bad
        case Got(uv, s3) => ReadConstants(nums, h, bc, uv, s3, stack)
  }

  function ReadConstants(nums: Numbers, h: Head, bc: seq<byte>, uv: seq<byte>, s: seq<byte>,
                         stack: seq<Loaded>): Parsed<Popped> {
    match ReadConsts(nums, s, h.sizekgc, stack)
    case Bad => Bad
    case Got(w, s1) =>
      match ReadNums(nums, s1, h.sizekn)
      case Bad => Bad
      case Got(kn, s2) =>
        match Take(s2, h.sizedbg)
        case Bad => Bad
        case Got(dbg, s3) =>
          if s3 != [] then Bad
          else Got(Popped(Loaded(h.flags, h.numparams, h.framesize, bc, uv, w.consts, kn, h.firstline, h.numline,
                                 dbg), w.stack), [])
  }

  // ---------------------------------------------------------------- trees

  /** A length and a body. */
  function Block(b: seq<byte>): seq<byte> {
    Uleb(|b|) + b
  }

  /** bcwrite_proto: the children from the last constant down, then the prototype itself. */
  function WriteTree(nums: Numbers, p: Proto, strip: bool): seq<byte>
    decreases p
  {
    (if p.flags % 2 == 1 then WriteChildren(nums, p.kgc, strip) else []) + Block(WriteBody(nums, p, strip))
  }

  function WriteChildren(nums: Numbers, ks: seq<Const>, strip: bool): seq<byte>
    decreases ks
  {
    if ks == [] then [] else WriteChild(nums, ks[|ks| - 1], strip) + WriteChildren(nums, ks[..|ks| - 1], strip)
  }

  function WriteChild(nums: Numbers, c: Const, strip: bool): seq<byte>
    decreases c
  {
    if c.KChild? then WriteTree(nums, c.p, strip) else []
  }

  /** The prototype loop of lj_bcread: prototypes are pushed until a length of zero.  Five bytes are wanted
      for a length;
      running out of input is accepted once, as eof records. */
  function ReadTrees(nums: Numbers, s: seq<byte>, stack: seq<Loaded>, strip: bool, eof: bool): Parsed<seq<Loaded>>
    decreases |s|
  {
    if s != [] && s[0] == 0 then Got(stack, s[1..])
    else if |s| < 5 && eof then Bad
    else match ReadUleb(s)
      case Bad => Bad
      case Got(len, t) =>
        if len == 0 then Got(stack, t)
        else if len > |t| || |t| >= |s| then Bad
        else match ReadBody(nums, t[..len], stack, strip)
          case Bad => Bad
          case Got(r, _) => ReadTrees(nums, t[len..], r.stack + [r.p], strip, eof || |s| < 5)
  }

  /** The input that is left when the prototype loop meets its terminator. */
  function Terminator(nums: Numbers, s: seq<byte>, stack: seq<Loaded>, strip: bool): seq<byte>
    decreases |s|
  {
    if s != [] && s[0] == 0 then s
    else match ReadUleb(s)
      case Bad => s
      case Got(len, t) =>
        if len == 0 || len > |t| || |t| >= |s| then s
        else match ReadBody(nums, t[..len], stack, strip)
          case Bad => s
          case Got(r, _) => Terminator(nums, t[len..], r.stack + [r.p], strip)
  }

  lemma UlebShrinks(s: seq<byte>)
    ensures var r := ReadUleb(s); r.Got? ==> |s| - 5 <= |r.rest| < |s|
  {
    MoreShrinks(s, 0, 1, 5);
  }

  /** A prototype takes seven bytes at least. */
  lemma BodyLong(nums: Numbers, s: seq<byte>, stack: seq<Loaded>, strip: bool)
    ensures ReadBody(nums, s, stack, strip).Got? ==> |s| >= 7
  {
    if |s| >= 4 {
      UlebShrinks(s[4..]);
      var r := ReadUleb(s[4..]);
      if r.Got? {
        UlebShrinks(r.rest);
        var r1 := ReadUleb(r.rest);
        if r1.Got? { UlebShrinks(r1.rest); }
      }
    }
    hide ReadUleb;
    hide ReadConstants;
  }

  lemma ZeroLength(s: seq<byte>)
    ensures s != [] && s[0] == 0 ==> ReadUleb(s) == Got(0, s[1..])
  {
  }

  lemma TerminatorUnfolds(nums: Numbers, s: seq<byte>, stack: seq<Loaded>, strip: bool)
    ensures s != [] && s[0] == 0 ==> Terminator(nums, s, stack, strip) == s
    ensures var l := ReadUleb(s);
            && (l.Got? && l.value == 0 ==> Terminator(nums, s, stack, strip) == s)
            && (l.Got? && 0 < l.value <= |l.rest| ==>
                  match ReadBody(nums, l.rest[..l.value], stack, strip)
                  case Bad => true
                  case Got(r, _) => Terminator(nums, s, stack, strip)
                                    == Terminator(nums, l.rest[l.value..], r.stack + [r.p], strip))
  {
    UlebShrinks(s);
    ZeroLength(s);
    hide ReadUleb;
    hide ReadBody;
  }

  /** One round of the prototype loop. */
  lemma TreesUnfold(nums: Numbers, s: seq<byte>, stack: seq<Loaded>, strip: bool, eof: bool)
    ensures ReadTrees(nums, s, stack, strip, eof) ==
            if s != [] && s[0] == 0 then Got(stack, s[1..])
            else if |s| < 5 && eof then Bad
            else match ReadUleb(s)
              case Bad => Bad
              case Got(len, t) =>
                if len == 0 then Got(stack, t)
                else if len > |t| then Bad
                else match ReadBody(nums, t[..len], stack, strip)
                  case Bad => Bad
                  case Got(r, _) => ReadTrees(nums, t[len..], r.stack + [r.p], strip, eof || |s| < 5)
  {
    UlebShrinks(s);
    hide ReadUleb;
    hide ReadBody;
  }

  // ---------------------------------------------------------------- what is preserved

  ghost predicate ConstOk(nums: Numbers, c: Const)
    decreases c
  {
    match c
    case KStr(b) => |b| + KGC_STR < 0x1_0000_0000
    case KTab(t) => TableOk(nums, t)
    case KChild(p) => ProtoOk(nums, p)
  }

  /** Sizes fit their fields, the flag for children is set where there are some, and the body is not too long
      to load. */
  ghost predicate ProtoOk(nums: Numbers, p: Proto)
    decreases p
  {
    && |p.uv| % 2 == 0 && |p.uv| / 2 < 256 && |p.bc| % 4 == 0 && |p.bc| / 4 < 0x1_0000_0000
    && |p.kgc| < 0x1_0000_0000 && |p.kn| < 0x1_0000_0000 && |p.dbg| < 0x1_0000_0000
    && (forall w :: w in p.kn ==> Exact(nums, w))
    && (forall i :: 0 <= i < |p.kgc| ==> ConstOk(nums, p.kgc[i]))
    && (p.flags % 2 == 0 ==> forall i :: 0 <= i < |p.kgc| ==> !p.kgc[i].KChild?)
    && |WriteBody(nums, p, false)| <= MAX_MEM && |WriteBody(nums, p, true)| <= MAX_MEM
  }

  function LoadConst(c: Const, strip: bool): LoadedConst
    decreases c
  {
    match c
    case KStr(b) => LStr(b)
    case KTab(t) => LTab(LoadTable(t))
    case KChild(p) => LChild(Load(p, strip))
  }

  function LoadConsts(ks: seq<Const>, strip: bool): (r: seq<LoadedConst>)
    ensures |r| == |ks|
    decreases ks
  {
    if ks == [] then [] else [LoadConst(ks[0], strip)] + LoadConsts(ks[1..], strip)
  }

  /** What the reader is to build: the same prototype with the flags that are kept, tables as maps, and debug
      information unless it is stripped. */
  function Load(p: Proto, strip: bool): Loaded
    decreases p
  {
    var bare := strip || |p.dbg| == 0;
    Loaded(p.flags % 8, p.numparams, p.framesize, p.bc, p.uv, LoadConsts(p.kgc, strip), p.kn,
           if bare then 0 else p.firstline, if bare then 0 else p.numline, if bare then [] else p.dbg)
  }

  // ---------------------------------------------------------------- round trips

  /** The children of some constants, in the order in which they lie on the stack. */
  function Pushed(ks: seq<Const>, strip: bool): seq<Loaded> {
    if ks == [] then []
    else
      var last := ks[|ks| - 1];
      (if last.KChild? then [Load(last.p, strip)] else []) + Pushed(ks[..|ks| - 1], strip)
  }

  /** Seen from the first constant, whose child is on top. */
  lemma {:induction false} PushedFirst(ks: seq<Const>, strip: bool)
    requires ks != []
    ensures Pushed(ks, strip) == Pushed(ks[1..], strip) + (if ks[0].KChild? then [Load(ks[0].p, strip)] else [])
  {
    hide Load;
    if |ks| == 1 {
      assert ks[..0] == [] && ks[1..] == [];
      assert Pushed(ks[..0], strip) == [];
    } else {
      var n := |ks|;
      var front, back := ks[..n - 1], ks[1..];
      PushedFirst(front, strip);
      assert front[1..] == back[..n - 2] && back[n - 2] == ks[n - 1] && front[0] == ks[0];
    }
  }

  lemma {:induction false} ConstsRoundTrip(nums: Numbers, ks: seq<Const>, t: seq<byte>, stack: seq<Loaded>, strip: bool)
    requires forall i :: 0 <= i < |ks| ==> ConstOk(nums, ks[i])
    ensures ReadConsts(nums, WriteConsts(nums, ks) + t, |ks|, stack + Pushed(ks, strip))
            == Got(WithStack(LoadConsts(ks, strip), stack), t)
  {
    hide ReadConsts;
    hide WriteConst;
    hide Load;
    hide LoadConst;
    if ks == [] {
      assert stack + Pushed(ks, strip) == stack;
      assert WriteConsts(nums, ks) + t == t;
      ReadNone(nums, t, stack);
    } else {
      var c, rest, below := ks[0], WriteConsts(nums, ks[1..]) + t, stack + Pushed(ks[1..], strip);
      assert WriteConsts(nums, ks) + t == WriteConst(nums, c) + rest;
      PushedFirst(ks, strip);
      assert stack + Pushed(ks, strip) == if c.KChild? then below + [Load(c.p, strip)] else below;
      ConstsRoundTrip(nums, ks[1..], t, stack, strip);
      ConstOnce(nums, c, rest, |ks|, below, strip);
    }
  }

  lemma ReadNone(nums: Numbers, t: seq<byte>, stack: seq<Loaded>)
    ensures ReadConsts(nums, t, 0, stack) == Got(WithStack([], stack), t)
  {
  }

  /** Reading one constant. */
  lemma ConstOnce(nums: Numbers, c: Const, rest: seq<byte>, n: nat, stack: seq<Loaded>, strip: bool)
    requires ConstOk(nums, c) && n > 0
    ensures ReadConsts(nums, WriteConst(nums, c) + rest, n, if c.KChild? then stack + [Load(c.p, strip)] else stack)
            == Before(LoadConst(c, strip), ReadConsts(nums, rest, n - 1, stack))
  {
    hide Uleb;
    hide ReadUleb;
    hide WriteTable;
    hide ReadTable;
    hide Load;
    match c
    case KStr(b) =>
      assert WriteConst(nums, c) + rest == Uleb(KGC_STR + |b|) + (b + rest);
      UlebRoundTrip(KGC_STR + |b|, b + rest);
      TakeBack(b, rest);
    case KTab(t) =>
      assert WriteConst(nums, c) + rest == [1] + (WriteTable(nums, t) + rest);
      SmallCode(1, WriteTable(nums, t) + rest);
      TableRoundTrip(nums, t, rest);
    case KChild(p) =>
      SmallCode(0, rest);
      var s := stack + [Load(p, strip)];
      assert s[..|s| - 1] == stack;
  }

  lemma HeadRoundTrip(nums: Numbers, p: Proto, strip: bool, t: seq<byte>)
    requires ProtoOk(nums, p)
    ensures var bare := strip || |p.dbg| == 0;
            ReadHead(WriteHead(p, strip) + t, strip)
            == Got(Head(p.flags % 8, p.numparams, p.framesize, |p.uv| / 2, |p.kgc|, |p.kn|, |p.bc| / 4,
                        if bare then 0 else |p.dbg|, if bare then 0 else p.firstline, if bare then 0 else p.numline), t)
  {
    hide Uleb;
    hide ReadUleb;
    hide WriteBody;
    hide ConstOk;
    hide Exact;
    var d := WriteDebugHead(p, strip) + t;
    var s3 := Uleb(|p.bc| / 4) + d;
    var s2 := Uleb(|p.kn|) + s3;
    var s1 := Uleb(|p.kgc|) + s2;
    var s := WriteHead(p, strip) + t;
    assert s == [p.flags % 8, p.numparams, p.framesize, |p.uv| / 2 % 256] + s1;
    assert s[4..] == s1;
    UlebRoundTrip(|p.kgc|, s2);
    UlebRoundTrip(|p.kn|, s3);
    UlebRoundTrip(|p.bc| / 4, d);
    if !strip {
      if |p.dbg| == 0 {
        UlebRoundTrip(0, t);
      } else {
        assert d == Uleb(|p.dbg|) + (Uleb(p.firstline) + (Uleb(p.numline) + t));
        UlebRoundTrip(|p.dbg|, Uleb(p.firstline) + (Uleb(p.numline) + t));
        UlebRoundTrip(p.firstline, Uleb(p.numline) + t);
        UlebRoundTrip(p.numline, t);
      }
    }
  }

  /** The parts of a body in order. */
  lemma BodyParts(nums: Numbers, p: Proto, strip: bool)
    ensures var dbg := if strip then [] else p.dbg;
            WriteBody(nums, p, strip) == WriteHead(p, strip)
                + (p.bc + (p.uv + (WriteConsts(nums, p.kgc) + (WriteNums(nums, p.kn) + dbg))))
  {
    hide WriteHead;
    hide WriteConsts;
    hide WriteNums;
  }

  lemma ConstantsRoundTrip(nums: Numbers, p: Proto, strip: bool, stack: seq<Loaded>, h: Head)
    requires ProtoOk(nums, p) && h.sizekgc == |p.kgc| && h.sizekn == |p.kn|
    requires var dbg := if strip then [] else p.dbg; h.sizedbg == |dbg|
    ensures var dbg := if strip then [] else p.dbg;
            ReadConstants(nums, h, p.bc, p.uv, WriteConsts(nums, p.kgc) + (WriteNums(nums, p.kn) + dbg),
                          stack + Pushed(p.kgc, strip))
            == Got(Popped(Loaded(h.flags, h.numparams, h.framesize, p.bc, p.uv, LoadConsts(p.kgc, strip), p.kn,
                                 h.firstline, h.numline, dbg), stack), [])
  {
    var dbg := if strip then [] else p.dbg;
    ConstsRoundTrip(nums, p.kgc, WriteNums(nums, p.kn) + dbg, stack, strip);
    NumsRoundTrip(nums, p.kn, dbg);
    assert dbg + [] == dbg;
    TakeBack(dbg, []);
    hide ProtoOk;
    hide WriteConsts;
    hide ReadConsts;
    hide WriteNums;
    hide ReadNums;
    hide Pushed;
    hide LoadConsts;
  }

  /** Reading a body with the children on the stack rebuilds the prototype and takes them off. */
  lemma BodyRoundTrip(nums: Numbers, p: Proto, strip: bool, stack: seq<Loaded>)
    requires ProtoOk(nums, p)
    ensures ReadBody(nums, WriteBody(nums, p, strip), stack + Pushed(p.kgc, strip), strip)
            == Got(Popped(Load(p, strip), stack), [])
  {
    hide WriteHead;
    hide ReadHead;
    hide ReadConstants;
    hide Pushed;
    hide LoadConsts;
    hide WriteBody;
    hide WriteConsts;
    hide WriteNums;
    hide ConstOk;
    hide Exact;
    var dbg := if strip then [] else p.dbg;
    var s2 := WriteConsts(nums, p.kgc) + (WriteNums(nums, p.kn) + dbg);
    BodyParts(nums, p, strip);
    HeadRoundTrip(nums, p, strip, p.bc + (p.uv + s2));
    var h := ReadHead(WriteBody(nums, p, strip), strip).value;
    TakeBack(p.bc, p.uv + s2);
    TakeBack(p.uv, s2);
    assert 4 * h.sizebc == |p.bc| && 2 * h.sizeuv == |p.uv|;
    ConstantsRoundTrip(nums, p, strip, stack, h);
  }

  lemma BodySize(nums: Numbers, p: Proto, strip: bool)
    requires ProtoOk(nums, p)
    ensures 4 < |WriteBody(nums, p, strip)| <= MAX_MEM
  {
    hide ConstOk;
    hide Exact;
    hide WriteConsts;
    hide WriteNums;
  }

  /** One round of the prototype loop. */
  lemma ReadBlock(nums: Numbers, b: seq<byte>, t: seq<byte>, stack: seq<Loaded>, strip: bool, r: Popped, eof: bool)
    requires 4 < |b| <= MAX_MEM && ReadBody(nums, b, stack, strip) == Got(r, [])
    ensures ReadTrees(nums, Block(b) + t, stack, strip, eof) == ReadTrees(nums, t, r.stack + [r.p], strip, eof)
    ensures Terminator(nums, Block(b) + t, stack, strip) == Terminator(nums, t, r.stack + [r.p], strip)
  {
    hide ReadBody;
    hide Uleb;
    hide ReadUleb;
    var s := Block(b) + t;
    assert s == Uleb(|b|) + (b + t);
    UlebRoundTrip(|b|, b + t);
    UlebFirst(|b|);
    assert (b + t)[..|b|] == b && (b + t)[|b|..] == t;
  }

  lemma BlockRoundTrip(nums: Numbers, p: Proto, strip: bool, stack: seq<Loaded>, t: seq<byte>, eof: bool)
    requires ProtoOk(nums, p)
    ensures ReadTrees(nums, Block(WriteBody(nums, p, strip)) + t, stack + Pushed(p.kgc, strip), strip, eof)
            == ReadTrees(nums, t, stack + [Load(p, strip)], strip, eof)
    ensures Terminator(nums, Block(WriteBody(nums, p, strip)) + t, stack + Pushed(p.kgc, strip), strip)
            == Terminator(nums, t, stack + [Load(p, strip)], strip)
  {
    hide ProtoOk;
    hide ReadTrees;
    hide Terminator;
    hide ReadBody;
    hide WriteBody;
    hide Load;
    hide Pushed;
    hide Block;
    BodySize(nums, p, strip);
    BodyRoundTrip(nums, p, strip, stack);
    ReadBlock(nums, WriteBody(nums, p, strip), t, stack + Pushed(p.kgc, strip), strip, Popped(Load(p, strip), stack),
              eof);
  }

  lemma TreeParts(nums: Numbers, p: Proto, strip: bool, t: seq<byte>)
    ensures WriteTree(nums, p, strip) + t
            == (if p.flags % 2 == 1 then WriteChildren(nums, p.kgc, strip) else [])
                + (Block(WriteBody(nums, p, strip)) + t)
  {
    hide WriteChildren;
    hide Block;
    hide WriteBody;
  }

  /** Reading back a tree pushes exactly its root, whatever lies below on the stack and whatever follows. */
  lemma {:induction false} TreeRoundTrip(nums: Numbers, p: Proto, strip: bool, stack: seq<Loaded>, t: seq<byte>,
                                         eof: bool)
    requires ProtoOk(nums, p)
    ensures ReadTrees(nums, WriteTree(nums, p, strip) + t, stack, strip, eof)
            == ReadTrees(nums, t, stack + [Load(p, strip)], strip, eof)
    ensures Terminator(nums, WriteTree(nums, p, strip) + t, stack, strip)
            == Terminator(nums, t, stack + [Load(p, strip)], strip)
    decreases p
  {
    hide Terminator;
    hide ReadTrees;
    hide WriteTree;
    hide WriteChildren;
    hide WriteBody;
    hide Block;
    hide Load;
    var own := Block(WriteBody(nums, p, strip));
    TreeParts(nums, p, strip, t);
    BlockRoundTrip(nums, p, strip, stack, t, eof);
    if p.flags % 2 == 1 {
      ChildrenRoundTrip(nums, p.kgc, strip, stack, own + t, eof);
    } else {
      NoChildren(p.kgc, strip);
      assert stack + Pushed(p.kgc, strip) == stack;
      assert [] + (own + t) == own + t;
    }
  }

  lemma {:induction false} NoChildren(ks: seq<Const>, strip: bool)
    requires forall i :: 0 <= i < |ks| ==> !ks[i].KChild?
    ensures Pushed(ks, strip) == []
  {
    if ks != [] { NoChildren(ks[..|ks| - 1], strip); }
  }

  lemma {:induction false} ChildrenRoundTrip(nums: Numbers, ks: seq<Const>, strip: bool, stack: seq<Loaded>,
                                             t: seq<byte>, eof: bool)
    requires forall i :: 0 <= i < |ks| ==> ConstOk(nums, ks[i])
    ensures ReadTrees(nums, WriteChildren(nums, ks, strip) + t, stack, strip, eof)
            == ReadTrees(nums, t, stack + Pushed(ks, strip), strip, eof)
    ensures Terminator(nums, WriteChildren(nums, ks, strip) + t, stack, strip)
            == Terminator(nums, t, stack + Pushed(ks, strip), strip)
    decreases ks
  {
    hide Terminator;
    hide ReadTrees;
    hide WriteTree;
    hide WriteChild;
    hide Load;
    hide ConstOk;
    if ks == [] {
      assert WriteChildren(nums, ks, strip) + t == t && stack + Pushed(ks, strip) == stack;
    } else {
      var c, front := ks[|ks| - 1], ks[..|ks| - 1];
      var rest := WriteChildren(nums, front, strip) + t;
      var stack' := if c.KChild? then stack + [Load(c.p, strip)] else stack;
      LastChild(nums, ks, strip, stack, t);
      hide WriteChildren;
      hide Pushed;
      ChildRoundTrip(nums, c, strip, stack, rest, eof);
      ChildrenRoundTrip(nums, front, strip, stack', t, eof);
    }
  }

  lemma LastChild(nums: Numbers, ks: seq<Const>, strip: bool, stack: seq<Loaded>, t: seq<byte>)
    requires ks != []
    ensures var c, front := ks[|ks| - 1], ks[..|ks| - 1];
            && WriteChildren(nums, ks, strip) + t
               == WriteChild(nums, c, strip) + (WriteChildren(nums, front, strip) + t)
            && stack + Pushed(ks, strip) == (if c.KChild? then stack + [Load(c.p, strip)] else stack)
               + Pushed(front, strip)
  {
    hide WriteChild;
    hide Load;
  }

  lemma {:induction false} ChildRoundTrip(nums: Numbers, c: Const, strip: bool, stack: seq<Loaded>, t: seq<byte>,
                                          eof: bool)
    requires ConstOk(nums, c)
    ensures ReadTrees(nums, WriteChild(nums, c, strip) + t, stack, strip, eof)
            == ReadTrees(nums, t, if c.KChild? then stack + [Load(c.p, strip)] else stack, strip, eof)
    ensures Terminator(nums, WriteChild(nums, c, strip) + t, stack, strip)
            == Terminator(nums, t, if c.KChild? then stack + [Load(c.p, strip)] else stack, strip)
    decreases c
  {
    if c.KChild? { TreeRoundTrip(nums, c.p, strip, stack, t, eof); } else { assert [] + t == t; }
  }

  // ---------------------------------------------------------------- whole dumps

  const HEAD1: byte := 0x1b
  const HEAD2: byte := 0x4c
  const HEAD3: byte := 0x4a
  const VERSION: byte := 1
  const F_STRIP: nat := 2

  /** bcwrite_header behind the escape character; numbers are little-endian. */
  function WriteHeader(name: seq<byte>, strip: bool, ffi: bool): seq<byte> {
    [HEAD2, HEAD3, VERSION, (if strip then F_STRIP else 0) + (if ffi then 4 else 0)] + if strip then []
        else Uleb(|name|) + name
  }

  datatype Header = Header(flags: u32, name: seq<byte>)

  datatype Outcome<+T> = Ok(value: T) | WrongFormat | Broken

  datatype AfterHeader = AfterHeader(h: Header, rest: seq<byte>)

  /** bcread_header; the name of a stripped chunk is given by the caller.  Dumps of the other byte order are
      not modelled. */
  function ReadHeader(s: seq<byte>, chunkarg: seq<byte>): Outcome<AfterHeader> {
    if |s| < 3 then Broken
    else if s[0] != HEAD2 || s[1] != HEAD3 || s[2] != VERSION then WrongFormat
    else match ReadUleb(s[3..])
      case Bad => Broken
      case Got(flags, t) =>
        if flags >= 8 || flags % 2 == 1 then WrongFormat
        else if flags / 2 % 2 == 1 then Ok(AfterHeader(Header(flags, chunkarg), t))
        else match ReadUleb(t)
          case Bad => Broken
          case Got(len, t1) =>
            match Take(t1, len)
            case Bad => Broken
            case Got(name, t2) => Ok(AfterHeader(Header(flags, name), t2))
  }

  datatype Chunk = Chunk(name: seq<byte>, p: Loaded)

  function Strips(h: Header): bool {
    h.flags / 2 % 2 == 1
  }

  /** The terminator of a dump, with what follows it. */
  function DumpTerminator(nums: Numbers, s: seq<byte>, chunkarg: seq<byte>): seq<byte> {
    match ReadHeader(s, chunkarg)
    case Ok(a) => Terminator(nums, a.rest, [], Strips(a.h))
    case _ => []
  }

  /** A dump, behind the escape character, with what follows it. */
  function ReadDump(nums: Numbers, s: seq<byte>, chunkarg: seq<byte>): Outcome<(Chunk, seq<byte>)> {
    match ReadHeader(s, chunkarg)
    case WrongFormat => WrongFormat
    case Broken => Broken
    case Ok(a) =>
      match ReadTrees(nums, a.rest, [], Strips(a.h), |s| < 13)
      case Bad => Broken
      case Got(stack, t) => if |stack| == 1 then Ok((Chunk(a.h.name, stack[0]), t)) else Broken
  }

  /** lj_bcwrite: the whole dump. */
  function WriteDump(nums: Numbers, p: Proto, name: seq<byte>, strip: bool): seq<byte> {
    [HEAD1] + (WriteHeader(name, strip, p.flags / 4 % 2 == 1) + (WriteTree(nums, p, strip) + [0]))
  }

  lemma HeaderRoundTrip(name: seq<byte>, strip: bool, ffi: bool, chunkarg: seq<byte>, t: seq<byte>)
    requires |name| < 0x1_0000_0000
    ensures var flags := (if strip then 2 else 0) + (if ffi then 4 else 0);
            ReadHeader(WriteHeader(name, strip, ffi) + t, chunkarg)
                == Ok(AfterHeader(Header(flags, if strip then chunkarg else name), t))
  {
    hide Uleb;
    hide ReadUleb;
    var flags := (if strip then 2 else 0) + (if ffi then 4 else 0);
    var s := WriteHeader(name, strip, ffi) + t;
    if strip {
      assert s[3..] == [flags] + t;
      SmallCode(flags, t);
    } else {
      assert s[3..] == [flags] + (Uleb(|name|) + (name + t));
      SmallCode(flags, Uleb(|name|) + (name + t));
      UlebRoundTrip(|name|, name + t);
      TakeBack(name, t);
    }
  }

  lemma AtEnd(nums: Numbers, stack: seq<Loaded>, strip: bool, more: seq<byte>, eof: bool)
    ensures ReadTrees(nums, [0] + more, stack, strip, eof) == Got(stack, more)
    ensures Terminator(nums, [0] + more, stack, strip) == [0] + more
  {
  }

  /** Writing a prototype tree and reading it back rebuilds it and leaves what follows the dump. */
  lemma DumpRoundTrip(nums: Numbers, p: Proto, name: seq<byte>, strip: bool, chunkarg: seq<byte>, more: seq<byte>)
    requires ProtoOk(nums, p) && |name| < 0x1_0000_0000
    ensures var d := WriteDump(nums, p, name, strip);
            && d[0] == HEAD1
            && ReadDump(nums, d[1..] + more, chunkarg)
               == Ok((Chunk(if strip then chunkarg else name, Load(p, strip)), more))
            && DumpTerminator(nums, d[1..] + more, chunkarg) == [0] + more
  {
    hide WriteHeader;
    hide ReadHeader;
    hide WriteTree;
    hide Load;
    hide ProtoOk;
    hide ReadTrees;
    hide Terminator;
    var ffi := p.flags / 4 % 2 == 1;
    var s := WriteDump(nums, p, name, strip)[1..] + more;
    var t := [0] + more;
    assert s == WriteHeader(name, strip, ffi) + (WriteTree(nums, p, strip) + t);
    HeaderRoundTrip(name, strip, ffi, chunkarg, WriteTree(nums, p, strip) + t);
    var h := ReadHeader(s, chunkarg).value.h;
    assert Strips(h) == strip;
    TreeRoundTrip(nums, p, strip, [], t, |s| < 13);
    assert [] + [Load(p, strip)] == [Load(p, strip)];
    AtEnd(nums, [Load(p, strip)], strip, more, |s| < 13);
  }
}
