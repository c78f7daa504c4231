/**
  What the items that the puts have recorded look like in the machine code: a law
  over items and bytes.
 */
module DasmBytes {
  import opened Common
  import opened Arith
  import opened DasmCode
  import opened DasmLabels
  import opened DasmActions
  import opened DasmStore
  import opened DasmFlat

  /** Where pass 3 stands when it reaches command i. */
  function PlaceOf(prog: seq<Cmd>, base: int, i: nat): nat {
    if i <= |prog| then |Code(prog, base, i)| else 0
  }

  /** The machine code between item k of section s and what follows it. */
  ghost predicate Spans(log: seq<seq<Item>>, prog: seq<Cmd>, base: int, code: seq<byte>, s: nat, k: nat, x: nat,
                        y: nat) {
    && s < |log| && k < |log[s]| && First(log, s) + k < |prog|
    && x == PlaceOf(prog, base, First(log, s) + k) && y == PlaceOf(prog, base, First(log, s) + k + 1)
    && x <= y <= |code|
  }

  /** The item is the opcode, or the prefix of the opcode, of a relative reference that was made short. */
  ghost predicate ShrunkOpcode(log: seq<seq<Item>>, prog: seq<Cmd>, s: nat, k: nat)
    requires s < |log|
  {
    exists j: nat :: k < j <= k + 2 && j < |log[s]| && log[s][j].a.IsRel() && First(log, s) + j < |prog|
                     && Short(prog, First(log, s) + j)
  }

  /** What stands in the code for an item that is no reference. */
  ghost predicate ItemBytes(log: seq<seq<Item>>, prog: seq<Cmd>, base: int, code: seq<byte>, s: nat, k: nat) {
    exists x: nat, y: nat ::
      && Spans(log, prog, base, code, s, k, x, y)
      && (!log[s][k].a.Literal? || !ShrunkOpcode(log, prog, s, k) ==> BytesOf(log[s][k], code, x, y))
  }

  ghost predicate BytesOf(it: Item, code: seq<byte>, x: nat, y: nat)
    requires x <= y <= |code|
  {
    match it.a
    case Literal(b, _) => y == x + 1 && code[x] == b
    case ImmS => y == x + 1 && Signed(code[x..y]) == it.n
    case ImmB => y == x + 1 && Unsigned(code[x..y]) == it.n
    case ImmW => y == x + 2 && Unsigned(code[x..y]) == it.n
    case ImmD => y == x + 4 && Signed(code[x..y]) == it.n
    case Space(fill) => y == x + it.n && forall j :: x <= j < y ==> code[j] == fill
    case Align(mask) => y <= x + mask && y % (mask + 1) == 0 && forall j :: x <= j < y ==> code[j] == NOP_BYTE
    case _ => it.a.IsRef() || y == x
  }

  /** The one-byte opcode of a short branch: `eb` for `e9`, `7x` for `0f 8x`. */
  function ShortForm(op: byte): int {
    if op == OP_JMP then OP_JMP_SHORT else op - 0x10
  }

  /** What stands in the code for a reference, recorded as event t: its definition's place, or the address
      of a global that the unit does not define. */
  ghost predicate RefBytes(log: seq<seq<Item>>, hist: seq<Event>, prog: seq<Cmd>, globals: seq<int>, base: int,
                           code: seq<byte>, s: nat, k: nat, t: nat)
    requires t < |hist| && hist[t].Ref?
  {
    exists x: nat, y: nat ::
      && Spans(log, prog, base, code, s, k, x, y)
      && (log[s][k].a.IsRel() && Short(prog, First(log, s) + k) ==>
            k > 0 && log[s][k-1].a.Literal? && y >= 2 && code[y-2] == ShortForm(log[s][k-1].a.b))
      && match Resolve(hist, t)
         case Some(at) =>
           !log[s][k].a.IsRel() ==>
             exists s': nat, k': nat ::
               && EventItem(log, s', k', Def(at, hist[t].key)) && y == x + 4
               && Unsigned(code[x..y]) == (base + PlaceOf(prog, base, First(log, s') + k')) % 0x1_0000_0000
         case None =>
           hist[t].key.LG? && 10 <= hist[t].key.i ==>
             && hist[t].key.i < |globals| && y == x + 4
             && Unsigned(code[x..y])
                == (globals[hist[t].key.i] - if log[s][k].a.IsRel() then base + y else 0) % 0x1_0000_0000
  }

  ghost predicate AllItemBytes(log: seq<seq<Item>>, prog: seq<Cmd>, base: int, code: seq<byte>) {
    forall s: nat, k: nat {:trigger ItemBytes(log, prog, base, code, s, k)} ::
      s < |log| && k < |log[s]| ==> ItemBytes(log, prog, base, code, s, k)
  }

  ghost predicate AllRefBytes(log: seq<seq<Item>>, hist: seq<Event>, prog: seq<Cmd>, globals: seq<int>, base: int,
                              code: seq<byte>) {
    forall s: nat, k: nat, t: nat {:trigger EventItem(log, s, k, hist[t])} ::
      t < |hist| && hist[t].Ref? && EventItem(log, s, k, hist[t])
      ==> RefBytes(log, hist, prog, globals, base, code, s, k, t)
  }

  // ---------------------------------------------------------------- little-endian numbers

  lemma ModUnique(x: int, m: nat, d: int, r: nat)
    requires m > 0 && x == d * m + r && r < m
    ensures x % m == r
  {
    var q, p := x / m, x % m;
    var e := d - q;
    assert x == q * m + p;
    assert e * m == d * m - q * m;
    if e > 0 { MulGap(e, 0, m); }
    if e < 0 {
      assert (-e) * m == -(e * m);
      MulGap(-e, 0, m);
    }
    assert e == 0;
  }

  lemma ModSplit(n: int, m: nat)
    requires m > 0
    ensures n % 256 + 256 * ((n / 256) % m) == n % (256 * m)
  {
    var q, r := n / 256, n % 256;
    var a, b := q / m, q % m;
    assert n == 256 * (a * m + b) + r;
    assert 256 * (a * m + b) + r == a * (256 * m) + (256 * b + r);
    assert 256 * b + r < 256 * m by { assert b + 1 <= m; }
    ModUnique(n, 256 * m, a, 256 * b + r);
  }

  /** Reading back what was written, modulo the width. */
  lemma {:induction false} UnsignedMod(n: int, width: nat)
    ensures Unsigned(LE(n, width)) == n % Pow256(width)
    decreases width
  {
    if width > 0 {
      UnsignedLE(n, width);
      UnsignedMod(n / 256, width - 1);
      ModSplit(n, Pow256(width - 1));
    }
  }

  lemma Unsigned4(n: int)
    ensures Unsigned(LE(n, 4)) == n % 0x1_0000_0000
  {
    UnsignedMod(n, 4);
    Powers256();
  }

  /** Four bytes that hold a number. */
  lemma FourBytes(code: seq<byte>, x: nat, y: nat, v: int)
    requires x <= y <= |code| && code[x..y] == LE(v, 4)
    ensures y == x + 4 && Unsigned(code[x..y]) == v % 0x1_0000_0000
  {
    Unsigned4(v);
  }

  lemma ShortIsRelative(prog: seq<Cmd>, i: nat)
    requires i < |prog| && Short(prog, i)
    ensures prog[i].Relative()
  {
  }

  lemma NotShort(prog: seq<Cmd>, i: nat)
    requires i < |prog| && !prog[i].Relative()
    ensures !Short(prog, i)
  {
  }

  lemma LiteralIs(it: Item, code: seq<byte>, x: nat, y: nat)
    requires it.a.Literal? && x + 1 == y <= |code| && code[x] == it.a.b
    ensures BytesOf(it, code, x, y)
  {
  }

  lemma RefIs(it: Item, code: seq<byte>, x: nat, y: nat)
    requires it.a.IsRef() && x <= y <= |code|
    ensures BytesOf(it, code, x, y)
  {
  }

  /** What the command of an item contributes is what the law asks for. */
  lemma PlainIs(prog: seq<Cmd>, base: int, i: nat, it: Item, code: seq<byte>, x: nat, y: nat)
    requires i < |prog| && !it.a.IsRef() && !it.a.Literal? && !it.a.Unknown?
    requires x == Final(prog, i) && y == Final(prog, i + 1) && x <= y <= |code|
    requires code[x..y] == Contribution(prog, base, i)
    requires match it.a
             case ImmS => prog[i] == Imm(1, it.n) && -128 <= it.n <= 127
             case ImmB => prog[i] == Imm(1, it.n) && 0 <= it.n <= 255
             case ImmW => prog[i] == Imm(2, it.n) && 0 <= it.n <= 65535
             case ImmD => prog[i] == Imm(4, it.n) && -0x8000_0000 <= it.n < 0x8000_0000
             case Space(fill) => it.n >= 0 && prog[i] == Fill(it.n, fill)
             case Align(mask) => prog[i] == Pad(mask) && y % (mask + 1) == 0 && y <= x + mask
             case _ => prog[i] == Nop || prog[i] == Mark
    ensures BytesOf(it, code, x, y)
  {
    hide Final;
    hide LE;
    hide Signed;
    hide Unsigned;
    hide Size;
    match it.a
    case ImmS => SignedLE(it.n, 1);
    case ImmB => UnsignedSmall(it.n);
    case ImmW => UnsignedSmall(it.n);
    case ImmD => SignedLE(it.n, 4);
    case Space(fill) => assert forall j :: x <= j < y ==> code[j] == code[x..y][j - x];
    case Align(mask) => assert forall j :: x <= j < y ==> code[j] == code[x..y][j - x];
    case _ =>
  }

  lemma UnsignedSmall(n: int)
    ensures 0 <= n < 256 ==> Unsigned(LE(n, 1)) == n
    ensures 0 <= n < 65536 ==> Unsigned(LE(n, 2)) == n
  {
    UnsignedMod(n, 1);
    UnsignedMod(n, 2);
    assert Pow256(1) == 256 && Pow256(2) == 65536;
  }
}
