/**
  The machine-level meaning of passes 2 and 3 of the DynASM x86 encoder, on a
  flat program: the commands of all sections in their final order.

  `Est` is the running offset pass 1 computes when every command takes its
  maximal size.  `Final` is the offset pass 2 settles on in its single sweep:
  a branch is shrunk on the strength of estimates for what lies ahead, before
  it is known how much of that will shrink later.  `Code` is what pass 3 has
  written when it reaches a command, including the patching of opcode bytes
  that are already in the buffer.
 */
module DasmCode {
  import opened Common
  import opened Arith

  datatype Cmd =
    | Nop                                    // start or end of one put
    | Emit(b: byte)                          // one literal byte
    | Imm(width: nat, n: int)                // immediate operand
    | Fill(count: nat, b: byte)              // SPACE
    | Mark                                   // label definition
    | Pad(mask: nat)                         // ALIGN
    | Branch(op: byte, target: nat)          // relative reference to the label at index target
    | ExtBranch(op: byte, address: int)      // relative reference to an address outside this unit
    | Address(target: nat)                   // absolute reference to a label
    | ExtAddress(address: int)               // absolute reference to an outside address
    | Stray(op: byte, seen: Option<int>, offset: int)  // relative reference whose local label was never
                                             // defined; its chain link is taken for a label at `offset`
    | StrayAddress(offset: int)              // absolute reference of that kind
  {
    predicate Relative() { Branch? || Stray? }
  }

  const NOP_BYTE: byte := 0x90
  const OP_JMP: byte := 0xe9
  const OP_JMP_SHORT: byte := 0xeb
  const OP_PREFIX: byte := 0x0f

  /** Bytes a shrinkable branch gives up when it is made short; 0 for any other opcode. */
  function Saving(op: byte): nat {
    if op == OP_JMP then 3 else if 0x80 <= op < 0x90 then 4 else 0
  }

  /** A branch that can shrink follows its opcode: `e9`, or `0f 8x`. */
  ghost predicate OpcodePrecedes(prog: seq<Cmd>, i: nat, op: byte) {
    && (Saving(op) == 3 ==> i >= 1 && i <= |prog| && prog[i-1] == Emit(op))
    && (Saving(op) == 4 ==> i >= 2 && i <= |prog| && prog[i-1] == Emit(op) && prog[i-2] == Emit(OP_PREFIX))
  }

  /** References name label definitions. */
  ghost predicate WellFormedCmd(prog: seq<Cmd>, i: nat)
    requires i < |prog|
  {
    match prog[i]
    case Branch(op, t) => t < |prog| && prog[t].Mark? && OpcodePrecedes(prog, i, op)
    case Address(t) => t < |prog| && prog[t].Mark?
    case Stray(op, _, _) => OpcodePrecedes(prog, i, op)
    case _ => true
  }

  ghost predicate WellFormed(prog: seq<Cmd>) {
    forall i :: 0 <= i < |prog| ==> WellFormedCmd(prog, i)
  }

  /** The size pass 1 assumes. */
  function MaxSize(c: Cmd): nat {
    match c
    case Nop => 0
    case Emit(_) => 1
    case Imm(width, _) => width
    case Fill(count, _) => count
    case Mark => 0
    case Pad(mask) => mask
    case Branch(_, _) => 4
    case ExtBranch(_, _) => 4
    case Address(_) => 4
    case ExtAddress(_) => 4
    case Stray(_, _, _) => 4
    case StrayAddress(_) => 4
  }

  function Est(prog: seq<Cmd>, i: nat): nat
    requires i <= |prog|
  {
    if i == 0 then 0 else Est(prog, i - 1) + MaxSize(prog[i-1])
  }

  /** Distance to the target as pass 2 sees it, measured from the end of the long form. */
  function SeenDistance(prog: seq<Cmd>, i: nat, t: nat): int
    requires i < |prog| && t < |prog| && t != i
    decreases i, 1
  {
    if t > i then Est(prog, t) - (Est(prog, i) + 4)
    else Final(prog, t) - (Final(prog, i) + 4)
  }

  /** The distance to something that is not a label: what pass 2 computes when it lies ahead depends
      on pass 1 only, otherwise it is measured like the distance to a label at that offset. */
  function StrayDistance(prog: seq<Cmd>, i: nat, seen: Option<int>, offset: int): int
    requires i < |prog|
    decreases i, 1
  {
    if seen.Some? then seen.value else offset - (Final(prog, i) + 4)
  }

  /** Pass 2's choice for the branch at i. */
  predicate Short(prog: seq<Cmd>, i: nat)
    requires i < |prog|
    decreases i, 2
  {
    match prog[i]
    case Branch(op, t) =>
      Saving(op) != 0 && t < |prog| && t != i && -128 - Saving(op) <= SeenDistance(prog, i, t) <= 127
    case Stray(op, seen, offset) =>
      Saving(op) != 0 && -128 - Saving(op) <= StrayDistance(prog, i, seen, offset) <= 127
    case _ => false
  }

  /** Bytes pass 2 saves at command i. */
  function ShrinkOf(prog: seq<Cmd>, i: nat): nat
    requires i < |prog|
  {
    if Short(prog, i) then Saving(prog[i].op) else 0
  }

  /** Bytes by which the program grows at command i.  A short `0f 8x` adds nothing: it
      loses one opcode byte and gains one displacement byte. */
  function Size(prog: seq<Cmd>, i: nat): nat
    requires i < |prog|
    decreases i, 3
  {
    match prog[i]
    case Pad(mask) => mask - (Final(prog, i) + mask) % (mask + 1)
    case Branch(op, _) => if Short(prog, i) then 4 - Saving(op) else 4
    case Stray(op, _, _) => if Short(prog, i) then 4 - Saving(op) else 4
    case c => MaxSize(c)
  }

  function Final(prog: seq<Cmd>, i: nat): nat
    requires i <= |prog|
    decreases i, 0
  {
    if i == 0 then 0 else Final(prog, i - 1) + Size(prog, i - 1)
  }

  /** Everything pass 2 does only ever removes bytes between two commands. */
  lemma {:induction false} GapShrinks(prog: seq<Cmd>, i: nat, j: nat)
    requires i <= j <= |prog|
    ensures 0 <= Final(prog, j) - Final(prog, i) <= Est(prog, j) - Est(prog, i)
    decreases j
  {
    if i < j {
      GapShrinks(prog, i, j - 1);
    }
  }

  /** The displacement the branch at i needs once all offsets are final. */
  function Displacement(prog: seq<Cmd>, i: nat, t: nat): int
    requires i < |prog| && t <= |prog|
  {
    Final(prog, t) - Final(prog, i + 1)
  }

  /** A branch chosen as short reaches its target with a signed byte, although commands
      after it are shrunk and re-aligned after the choice. */
  lemma ShortBranchInRange(prog: seq<Cmd>, i: nat)
    requires i < |prog| && prog[i].Branch? && Short(prog, i)
    ensures -128 <= Displacement(prog, i, prog[i].target) <= 127
    ensures prog[i].target > i ==> 0 <= Displacement(prog, i, prog[i].target)
  {
    var t := prog[i].target;
    if t > i {
      GapShrinks(prog, i + 1, t);
      assert Est(prog, i + 1) == Est(prog, i) + 4;
    } else {
      GapShrinks(prog, t, i);
      assert Final(prog, i + 1) == Final(prog, i) + 4 - Saving(prog[i].op);
    }
  }

  /** For backward branches the choice is exact: the short form is taken just when it reaches. */
  lemma BackwardShortExactly(prog: seq<Cmd>, i: nat, op: byte, t: nat)
    requires i < |prog| && prog[i] == Branch(op, t) && t < i && Saving(op) != 0
    ensures Short(prog, i) <==> -128 <= Final(prog, t) - (Final(prog, i) + 4 - Saving(op))
  {
    GapShrinks(prog, t, i);
  }

  /** For forward branches the choice rests on pass 1's estimate of the bytes in between.  It misses
      a label within reach just when the estimate exceeds 127 and the bytes that remain do not. */
  lemma ForwardShortExactly(prog: seq<Cmd>, i: nat, op: byte, t: nat)
    requires i < |prog| && prog[i] == Branch(op, t) && i < t < |prog| && Saving(op) != 0
    ensures Short(prog, i) <==> Est(prog, t) - Est(prog, i + 1) <= 127
    ensures Short(prog, i) ==> 0 <= Displacement(prog, i, t) <= 127
    ensures !Short(prog, i) && Displacement(prog, i, t) <= 127
            <==> Displacement(prog, i, t) <= 127 < Est(prog, t) - Est(prog, i + 1)
  {
    GapShrinks(prog, i + 1, t);
    assert Est(prog, i + 1) == Est(prog, i) + 4;
  }

  /** For forward branches it is only safe: here a branch stays long although the bytes that
      finally separate it from its label would fit a short one. */
  lemma ForwardChoiceIsConservative()
    ensures exists prog: seq<Cmd>, i: nat ::
              && i < |prog| && WellFormed(prog) && prog[i].Branch? && prog[i].target > i
              && prog[i].target < |prog| && Saving(prog[i].op) != 0 && !Short(prog, i)
              && 0 <= Displacement(prog, i, prog[i].target) <= 127
  {
    var prog := [Emit(OP_JMP), Branch(OP_JMP, 4), Fill(127, 0), Pad(3), Mark];
    assert WellFormed(prog);
    assert Est(prog, 1) == 1;
    assert Est(prog, 2) == 5;
    assert Est(prog, 3) == 132;
    assert Est(prog, 4) == 135;
    assert SeenDistance(prog, 1, 4) == 130;
    assert !Short(prog, 1);
    assert Final(prog, 0) == 0;
    assert Final(prog, 1) == 1;
    assert Final(prog, 2) == 5;
    assert Final(prog, 3) == 132;
    assert Size(prog, 3) == 0;
    assert Final(prog, 4) == 132;
    assert Displacement(prog, 1, 4) == 127;
  }

  /** An aligned position really is aligned, whatever shrank before it, and needs at most mask bytes. */
  lemma PadAligns(prog: seq<Cmd>, i: nat)
    requires i < |prog| && prog[i].Pad?
    ensures Final(prog, i + 1) % (prog[i].mask + 1) == 0
    ensures 0 <= Final(prog, i + 1) - Final(prog, i) <= prog[i].mask
  {
    var m := prog[i].mask + 1;
    var q := Final(prog, i) + prog[i].mask;
    assert Final(prog, i + 1) == q - q % m;
    RoundDown(q, m);
  }

  // ---------------------------------------------------------------- pass 3

  /** Little-endian bytes of n modulo 256^width. */
  function LE(n: int, width: nat): (r: seq<byte>)
    ensures |r| == width
    decreases width
  {
    if width == 0 then [] else [n % 256] + LE(n / 256, width - 1)
  }

  /** The unsigned number a byte string stands for, and its two's complement reading. */
  function Unsigned(s: seq<byte>): (r: nat)
  {
    if s == [] then 0 else s[0] + 256 * Unsigned(s[1..])
  }

  function Pow256(w: nat): (r: nat)
    ensures r > 0
  {
    if w == 0 then 1 else 256 * Pow256(w - 1)
  }

  function Signed(s: seq<byte>): int
  {
    var u := Unsigned(s);
    if 2 * u < Pow256(|s|) then u else u - Pow256(|s|)
  }

  function Repeat(count: nat, b: byte): (r: seq<byte>)
    ensures |r| == count
    ensures forall k :: 0 <= k < count ==> r[k] == b
  {
    seq(count, _ => b)
  }

  /** Number of bytes from pos to the next multiple of mask + 1. */
  function PadCount(pos: nat, mask: nat): nat {
    var r := pos % (mask + 1);
    if r == 0 then 0 else mask + 1 - r
  }

  /** Replaces the opcode in front of a short branch: `e9` by `eb`, `0f 8x` by `7x`. */
  function Patched(out: seq<byte>, saving: nat): seq<byte> {
    if saving == 3 && |out| >= 1 then out[..|out|-1] + [OP_JMP_SHORT]
    else if saving == 4 && |out| >= 2 && out[|out|-1] >= 0x10 then out[..|out|-2] + [out[|out|-1] - 0x10]
    else out
  }

  /** The displacement of a branch that saves `shrink` bytes. */
  function BranchImage(out: seq<byte>, n: int, shrink: nat): seq<byte> {
    if shrink == 0 then out + LE(n, 4) else Patched(out, shrink) + LE(n, 1)
  }

  /** What pass 3 makes of the buffer at one command, when labels have the offsets `Final` gives them. */
  function Encoded(prog: seq<Cmd>, base: int, i: nat, out: seq<byte>): seq<byte>
    requires i < |prog|
  {
    match prog[i]
    case Nop => out
    case Emit(b) => out + [b]
    case Imm(w, n) => out + LE(n, w)
    case Fill(count, b) => out + Repeat(count, b)
    case Mark => out
    case Pad(mask) => out + Repeat(PadCount(|out|, mask), NOP_BYTE)
    case Branch(_, t) =>
      BranchImage(out, LabelAt(prog, t) - (|out| + 4 - ShrinkOf(prog, i)), ShrinkOf(prog, i))
    case ExtBranch(_, address) => out + LE(address - (base + |out| + 4), 4)
    case Address(t) => out + LE(base + LabelAt(prog, t), 4)
    case ExtAddress(address) => out + LE(address, 4)
    case Stray(_, _, offset) =>
      BranchImage(out, offset - (|out| + 4 - ShrinkOf(prog, i)), ShrinkOf(prog, i))
    case StrayAddress(offset) => out + LE(base + offset, 4)
  }

  function LabelAt(prog: seq<Cmd>, t: nat): nat {
    if t <= |prog| then Final(prog, t) else 0
  }

  /** The offset a relative reference is encoded for. */
  function Aim(prog: seq<Cmd>, i: nat): int
    requires i < |prog| && prog[i].Relative()
  {
    if prog[i].Branch? then LabelAt(prog, prog[i].target) else prog[i].offset
  }

  /** The buffer contents when pass 3 reaches command i; `base` is the buffer's address. */
  function Code(prog: seq<Cmd>, base: int, i: nat): seq<byte>
    requires i <= |prog|
  {
    if i == 0 then [] else Encoded(prog, base, i - 1, Code(prog, base, i - 1))
  }

  /** No phase error: pass 3 is at every command exactly where pass 2 said it would be. */
  lemma {:induction false} CodeLength(prog: seq<Cmd>, base: int, i: nat)
    requires WellFormed(prog) && i <= |prog|
    ensures |Code(prog, base, i)| == Final(prog, i)
  {
    hide Encoded;
    hide Size;
    hide WellFormedCmd;
    if i > 0 {
      CodeLength(prog, base, i - 1);
      CommandLength(prog, base, i - 1);
    }
  }

  /** One command adds what pass 2 reckons for it. */
  lemma CommandLength(prog: seq<Cmd>, base: int, i: nat)
    requires i < |prog| && WellFormedCmd(prog, i) && |Code(prog, base, i)| == Final(prog, i)
    ensures |Encoded(prog, base, i, Code(prog, base, i))| == Final(prog, i) + Size(prog, i)
  {
    hide LE;
    hide PadCount;
    hide SeenDistance;
    hide Code;
    hide Final;
    if prog[i].Pad? {
      PadCountAgrees(Final(prog, i), prog[i].mask);
    } else if prog[i].Relative() {
      if Short(prog, i) { OpcodeAtEnd(prog, base, i); }
      hide Short;
    }
  }

  /** A shrinkable branch finds its opcode in the last bytes written. */
  lemma OpcodeAtEnd(prog: seq<Cmd>, base: int, i: nat)
    requires i < |prog| && WellFormedCmd(prog, i) && prog[i].Relative()
    ensures var out := Code(prog, base, i); var op := prog[i].op;
            && (Saving(op) >= 3 ==> |out| >= 1 && out[|out|-1] == op)
            && (Saving(op) == 4 ==> |out| >= 2 && out[|out|-2] == OP_PREFIX && out[|out|-1] >= 0x10
                                    && out == Code(prog, base, i - 2) + [OP_PREFIX, op])
            && (Saving(op) == 3 ==> i >= 1 && out == Code(prog, base, i - 1) + [op])
  {
    var op := prog[i].op;
    if Saving(op) == 4 {
      assert Code(prog, base, i) == Code(prog, base, i - 1) + [op];
      assert Code(prog, base, i - 1) == Code(prog, base, i - 2) + [OP_PREFIX];
    }
  }

  lemma PadCountAgrees(pos: nat, mask: nat)
    ensures PadCount(pos, mask) == mask - (pos + mask) % (mask + 1)
  {
    ModShift(pos, mask + 1);
  }

  /** How far back command j reaches into the buffer: a short branch rewrites its opcode. */
  function Back(prog: seq<Cmd>, j: nat): nat
    requires j < |prog|
  {
    if Short(prog, j) then Saving(prog[j].op) - 2 else 0
  }

  lemma StepKeeps(prog: seq<Cmd>, base: int, j: nat)
    requires WellFormed(prog) && j < |prog|
    ensures Back(prog, j) <= j
    ensures forall k :: j - Back(prog, j) <= k < j ==> prog[k].Emit?
    ensures Code(prog, base, j - Back(prog, j)) <= Code(prog, base, j + 1)
  {
    hide Code;
    hide Encoded;
    assert WellFormedCmd(prog, j);
    hide WellFormed;
    CodeStep(prog, base, j);
    if Short(prog, j) {
      ShortKeeps(prog, base, j);
    } else {
      hide WellFormedCmd;
      PlainKeeps(prog, base, j);
    }
  }

  lemma PlainKeeps(prog: seq<Cmd>, base: int, j: nat)
    requires j < |prog| && !Short(prog, j)
    ensures Code(prog, base, j) <= Encoded(prog, base, j, Code(prog, base, j))
  {
    hide Code;
    hide LE;
    hide Repeat;
    hide PadCount;
    hide Final;
    hide Short;
  }

  lemma ShortKeeps(prog: seq<Cmd>, base: int, j: nat)
    requires j < |prog| && Short(prog, j) && WellFormedCmd(prog, j)
    ensures 1 <= Back(prog, j) <= 2 && Back(prog, j) <= j
    ensures forall k :: j - Back(prog, j) <= k < j ==> prog[k].Emit?
    ensures Code(prog, base, j - Back(prog, j)) <= Encoded(prog, base, j, Code(prog, base, j))
  {
    hide Code;
    hide LE;
    hide Final;
    hide SeenDistance;
    OpcodeAtEnd(prog, base, j);
  }

  lemma CodeStep(prog: seq<Cmd>, base: int, j: nat)
    requires j < |prog|
    ensures Code(prog, base, j + 1) == Encoded(prog, base, j, Code(prog, base, j))
  {
    hide Encoded;
  }

  /** What has been written before command i stays, unless i follows a literal byte
      (which may be an opcode waiting to be patched). */
  lemma {:induction false} PrefixStays(prog: seq<Cmd>, base: int, i: nat, j: nat)
    requires WellFormed(prog) && i <= j <= |prog|
    requires i == 0 || !prog[i-1].Emit?
    ensures Code(prog, base, i) <= Code(prog, base, j)
    decreases j
  {
    hide Code;
    hide Back;
    hide WellFormed;
    if i < j {
      StepKeeps(prog, base, j - 1);
      var k := j - 1 - Back(prog, j - 1);
      assert i <= k;
      PrefixStays(prog, base, i, k);
    }
  }

  /** A literal byte is in the final code where pass 2 put it, unless it is the opcode of a shrunk branch. */
  predicate OpcodeOfShort(prog: seq<Cmd>, i: nat) {
    || (i + 1 < |prog| && Back(prog, i + 1) >= 1)
    || (i + 2 < |prog| && Back(prog, i + 2) >= 2)
  }

  lemma {:induction false} LiteralStays(prog: seq<Cmd>, base: int, i: nat, j: nat)
    requires WellFormed(prog) && i < j <= |prog| && prog[i].Emit? && !OpcodeOfShort(prog, i)
    ensures Final(prog, i) < |Code(prog, base, j)| && Code(prog, base, j)[Final(prog, i)] == prog[i].b
    decreases j
  {
    hide WellFormed;
    hide Final;
    hide Short;
    if j == i + 1 {
      CodeLength(prog, base, i);
    } else {
      hide Code;
      StepKeeps(prog, base, j - 1);
      var k := j - 1 - Back(prog, j - 1);
      assert i < k;
      LiteralStays(prog, base, i, k);
    }
  }

  /** Every relative branch, short or long, forward or backward, lands on its label. */
  lemma BranchLands(prog: seq<Cmd>, base: int, i: nat)
    requires WellFormed(prog) && i < |prog| && prog[i].Branch?
    requires Final(prog, |prog|) < 0x8000_0000
    ensures var code := Code(prog, base, |prog|);
            var end := Final(prog, i + 1);
            var width := if Short(prog, i) then 1 else 4;
            && width <= end <= |code|
            && end + Signed(code[end - width..end]) == LabelAt(prog, prog[i].target)
  {
    hide LE;
    hide Signed;
    hide Code;
    var width := if Short(prog, i) then 1 else 4;
    var t := prog[i].target;
    assert WellFormedCmd(prog, i);
    assert t < |prog|;
    BranchBytes(prog, base, i);
    if Short(prog, i) {
      ShortBranchInRange(prog, i);
    } else {
      GapShrinks(prog, t, |prog|);
      GapShrinks(prog, i + 1, |prog|);
    }
    SignedLE(Displacement(prog, i, t), width);
  }

  /** The displacement of a relative reference is the last thing written for it. */
  lemma BranchBytes(prog: seq<Cmd>, base: int, i: nat)
    requires WellFormed(prog) && i < |prog| && prog[i].Relative()
    ensures var code := Code(prog, base, |prog|);
            var end := Final(prog, i + 1);
            var width := if Short(prog, i) then 1 else 4;
            && width <= end <= |code|
            && code[end - width..end] == LE(Aim(prog, i) - end, width)
  {
    hide Encoded;
    hide LE;
    CodeLength(prog, base, i + 1);
    PrefixStays(prog, base, i + 1, |prog|);
    BranchTail(prog, base, i);
  }

  lemma BranchTail(prog: seq<Cmd>, base: int, i: nat)
    requires WellFormed(prog) && i < |prog| && prog[i].Relative()
    ensures var next := Code(prog, base, i + 1);
            var end := Final(prog, i + 1);
            var width := if Short(prog, i) then 1 else 4;
            && width <= end == |next|
            && next[end - width..] == LE(Aim(prog, i) - end, width)
  {
    hide Encoded;
    hide Size;
    hide LE;
    hide Short;
    hide WellFormedCmd;
    assert WellFormedCmd(prog, i);
    CodeLength(prog, base, i);
    CodeLength(prog, base, i + 1);
    assert Final(prog, i + 1) == Final(prog, i) + Size(prog, i);
    assert Code(prog, base, i + 1) == Encoded(prog, base, i, Code(prog, base, i));
    BranchLastBytes(prog, base, i);
  }

  /** A branch image ends with its displacement. */
  lemma ImageEnds(out: seq<byte>, n: int, shrink: nat)
    requires shrink == 0 || (shrink == 3 && |out| >= 1) || (shrink == 4 && |out| >= 2 && out[|out|-1] >= 0x10)
    ensures var image := BranchImage(out, n, shrink);
            var width := if shrink > 0 then 1 else 4;
            |image| == |out| + 4 - shrink && image[|image| - width..] == LE(n, width)
  {
    hide LE;
  }

  lemma BranchLastBytes(prog: seq<Cmd>, base: int, i: nat)
    requires i < |prog| && prog[i].Relative() && WellFormedCmd(prog, i) && |Code(prog, base, i)| == Final(prog, i)
    ensures var next := Encoded(prog, base, i, Code(prog, base, i));
            var end := Final(prog, i) + Size(prog, i);
            var width := if Short(prog, i) then 1 else 4;
            && width <= end == |next|
            && next[end - width..] == LE(Aim(prog, i) - end, width)
  {
    hide LE;
    hide Final;
    hide Code;
    hide SeenDistance;
    hide StrayDistance;
    hide LabelAt;
    hide BranchImage;
    hide WellFormedCmd;
    var out, shrink := Code(prog, base, i), ShrinkOf(prog, i);
    if Short(prog, i) { OpcodeAtEnd(prog, base, i); }
    ImageEnds(out, Aim(prog, i) - (|out| + 4 - shrink), shrink);
  }

  /** A shrunk branch has the short opcode directly in front of its displacement byte. */
  lemma ShortOpcode(prog: seq<Cmd>, base: int, i: nat)
    requires WellFormed(prog) && i < |prog| && Short(prog, i)
    ensures var code := Code(prog, base, |prog|);
            var end := Final(prog, i + 1);
            && 2 <= end <= |code|
            && code[end - 2] == if prog[i].op == OP_JMP then OP_JMP_SHORT else prog[i].op - 0x10
  {
    hide Code;
    hide Encoded;
    hide Final;
    assert WellFormedCmd(prog, i);
    CodeLength(prog, base, i + 1);
    PrefixStays(prog, base, i + 1, |prog|);
    CodeStep(prog, base, i);
    OpcodePatched(prog, base, i);
  }

  lemma OpcodePatched(prog: seq<Cmd>, base: int, i: nat)
    requires i < |prog| && Short(prog, i) && WellFormedCmd(prog, i)
    ensures var next := Encoded(prog, base, i, Code(prog, base, i));
            |next| >= 2 && next[|next| - 2] == if prog[i].op == OP_JMP then OP_JMP_SHORT else prog[i].op - 0x10
  {
    hide Code;
    hide LE;
    hide Final;
    hide SeenDistance;
    OpcodeAtEnd(prog, base, i);
  }

  /** The bytes command i contributes when it is neither a literal nor a short branch. */
  function Contribution(prog: seq<Cmd>, base: int, i: nat): seq<byte>
    requires i < |prog|
  {
    var end := Final(prog, i + 1);
    match prog[i]
    case Imm(w, n) => LE(n, w)
    case Fill(count, b) => Repeat(count, b)
    case Pad(_) => Repeat(Size(prog, i), NOP_BYTE)
    case Branch(_, t) => LE(LabelAt(prog, t) - end, 4)
    case ExtBranch(_, address) => LE(address - (base + end), 4)
    case Address(t) => LE(base + LabelAt(prog, t), 4)
    case ExtAddress(address) => LE(address, 4)
    case Stray(_, _, offset) => LE(offset - end, 4)
    case StrayAddress(offset) => LE(base + offset, 4)
    case _ => []
  }

  /** They stand in the final code between the two offsets pass 2 computed. */
  lemma CommandBytes(prog: seq<Cmd>, base: int, i: nat)
    requires WellFormed(prog) && i < |prog| && !prog[i].Emit? && !Short(prog, i)
    ensures var code := Code(prog, base, |prog|);
            && Final(prog, i) <= Final(prog, i + 1) <= |code|
            && code[Final(prog, i)..Final(prog, i + 1)] == Contribution(prog, base, i)
  {
    CodeLength(prog, base, i);
    CodeLength(prog, base, i + 1);
    PrefixStays(prog, base, i + 1, |prog|);
    CodeStep(prog, base, i);
    assert Final(prog, i + 1) == Final(prog, i) + Size(prog, i);
    hide Code;
    hide Encoded;
    hide Final;
    hide Contribution;
    hide Short;
    hide Size;
    hide WellFormed;
    Contributes(prog, base, i);
    var out, next, code := Code(prog, base, i), Code(prog, base, i + 1), Code(prog, base, |prog|);
    assert code[|out|..|next|] == next[|out|..];
  }

  lemma Contributes(prog: seq<Cmd>, base: int, i: nat)
    requires i < |prog| && !prog[i].Emit? && !Short(prog, i) && |Code(prog, base, i)| == Final(prog, i)
    ensures Encoded(prog, base, i, Code(prog, base, i)) == Code(prog, base, i) + Contribution(prog, base, i)
  {
    hide LE;
    hide Short;
    hide PadCount;
    hide Code;
    assert Final(prog, i + 1) == Final(prog, i) + Size(prog, i);
    hide Final;
    if prog[i].Pad? {
      PadCountAgrees(|Code(prog, base, i)|, prog[i].mask);
    }
  }

  /** Two's complement round trip of a displacement. */
  lemma SignedLE(n: int, width: nat)
    requires width == 1 ==> -128 <= n <= 127
    requires width == 4 ==> -0x8000_0000 <= n < 0x8000_0000
    requires width == 1 || width == 4
    ensures Signed(LE(n, width)) == n
  {
    if width == 1 {
      UnsignedLE(n, 1);
      assert Pow256(1) == 256;
    } else {
      Powers256();
      hide Pow256;
      hide LE;
      hide Unsigned;
      Unsigned32(n);
    }
  }

  lemma Powers256()
    ensures Pow256(4) == 0x1_0000_0000
  {
    assert Pow256(2) == 0x1_0000;
  }

  lemma Unsigned32(n: int)
    requires -0x8000_0000 <= n < 0x8000_0000
    ensures Unsigned(LE(n, 4)) == if n < 0 then n + 0x1_0000_0000 else n
  {
    var a, b, c := n / 256, n / 256 / 256, n / 256 / 256 / 256;
    UnsignedLE(n, 4);
    UnsignedLE(a, 3);
    UnsignedLE(b, 2);
    UnsignedLE(c, 1);
    assert Unsigned(LE(c / 256, 0)) == 0;
    hide LE;
    hide Unsigned;
    assert c % 256 == if n < 0 then c + 256 else c;
  }

  lemma UnsignedLE(n: int, width: nat)
    requires width > 0
    ensures Unsigned(LE(n, width)) == n % 256 + 256 * Unsigned(LE(n / 256, width - 1))
  {
    assert LE(n, width)[1..] == LE(n / 256, width - 1);
  }
}
