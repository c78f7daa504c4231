/**
  Writing machine code into the caller's buffer through a moving pointer.
 */
module DasmOutput {
  import opened Common
  import opened Arith
  import opened DasmCode

  method WriteLE(buffer: array<byte>, cp: nat, n: int, width: nat) returns (cp': nat)
    requires cp + width <= buffer.Length
    modifies buffer
    ensures cp' == cp + width
    ensures buffer[..cp'] == old(buffer[..cp]) + LE(n, width)
    decreases width
  {
    if width == 0 {
      cp' := cp;
    } else {
      buffer[cp] := n % 256;
      cp' := WriteLE(buffer, cp + 1, n / 256, width - 1);
      assert LE(n, width) == [n % 256] + LE(n / 256, width - 1);
    }
  }

  method WriteFill(buffer: array<byte>, cp: nat, count: nat, b: byte) returns (cp': nat)
    requires cp + count <= buffer.Length
    modifies buffer
    ensures cp' == cp + count
    ensures buffer[..cp'] == old(buffer[..cp]) + Repeat(count, b)
  {
    cp' := cp;
    var n := count;
    while n > 0
      invariant 0 <= n <= count && cp' == cp + (count - n)
      invariant buffer[..cp] == old(buffer[..cp])
      invariant forall k :: cp <= k < cp' ==> buffer[k] == b
    {
      buffer[cp'] := b;
      cp' := cp' + 1;
      n := n - 1;
    }
  }

  /** Fills with nops up to the next multiple of mask + 1. */
  method WritePad(buffer: array<byte>, cp: nat, mask: nat) returns (cp': nat)
    requires cp + PadCount(cp, mask) <= buffer.Length
    modifies buffer
    ensures cp' == cp + PadCount(cp, mask)
    ensures buffer[..cp'] == old(buffer[..cp]) + Repeat(PadCount(cp, mask), NOP_BYTE)
  {
    cp' := cp;
    while cp' % (mask + 1) != 0
      invariant cp <= cp' <= cp + PadCount(cp, mask)
      invariant buffer[..cp] == old(buffer[..cp])
      invariant forall k :: cp <= k < cp' ==> buffer[k] == NOP_BYTE
      decreases cp + PadCount(cp, mask) - cp'
    {
      PadNotYet(cp, mask, cp' - cp);
      buffer[cp'] := NOP_BYTE;
      cp' := cp' + 1;
    }
    PadNotYet(cp, mask, cp' - cp);
  }

  /** The first multiple of mask + 1 from pos on is PadCount bytes away. */
  lemma PadNotYet(pos: nat, mask: nat, d: nat)
    requires d <= PadCount(pos, mask)
    ensures (pos + d) % (mask + 1) == 0 <==> d == PadCount(pos, mask)
  {
    var m := mask + 1;
    var q, r := pos / m, pos % m;
    if r == 0 {
    } else if d == m - r {
      DivUnique(q * m, m, q, 0);
      ModStep(q * m, m);
      assert pos + d == q * m + m;
    } else {
      DivUnique(pos + d, m, q, r + d);
    }
  }

  /** Rewrites the opcode in front of a short branch and steps back over the byte it loses. */
  method PatchOpcode(buffer: array<byte>, cp: nat, shrink: nat) returns (cp': nat)
    requires cp <= buffer.Length
    requires (shrink == 3 && cp >= 1) || (shrink == 4 && cp >= 2 && buffer[cp-1] >= 0x10)
    modifies buffer
    ensures cp' == cp + 3 - shrink
    ensures buffer[..cp'] == Patched(old(buffer[..cp]), shrink)
  {
    cp' := cp;
    if shrink == 4 {
      cp' := cp' - 1;
      buffer[cp'-1] := buffer[cp'] - 0x10;
    } else {
      buffer[cp'-1] := OP_JMP_SHORT;
    }
  }

  method WriteBranch(buffer: array<byte>, cp: nat, n: int, shrink: nat) returns (cp': nat)
    requires cp <= buffer.Length
    requires shrink == 0 || (shrink == 3 && cp >= 1) || (shrink == 4 && cp >= 2 && buffer[cp-1] >= 0x10)
    requires cp + 4 - shrink <= buffer.Length
    modifies buffer
    ensures cp' == cp + 4 - shrink
    ensures buffer[..cp'] == BranchImage(old(buffer[..cp]), n, shrink)
  {
    if shrink == 0 {
      cp' := WriteLE(buffer, cp, n, 4);
    } else {
      cp' := PatchOpcode(buffer, cp, shrink);
      cp' := WriteLE(buffer, cp', n, 1);
    }
  }

  /** One branch of pass 3 in terms of what pass 2 left in the cells. */
  lemma BranchStep(prog: seq<Cmd>, base: int, i: nat, out: seq<byte>)
    requires i < |prog| && WellFormedCmd(prog, i) && prog[i].Relative()
    requires out == Code(prog, base, i)
    ensures var n := ShrinkOf(prog, i);
            && (n == 0 || (n == 3 && |out| >= 1) || (n == 4 && |out| >= 2 && out[|out|-1] >= 0x10))
            && Final(prog, i + 1) == Final(prog, i) + 4 - n
            && Encoded(prog, base, i, out) == BranchImage(out, Aim(prog, i) - (|out| + 4 - n), n)
  {
    hide LE;
    hide SeenDistance;
    hide PadCount;
    hide LabelAt;
    if Short(prog, i) { OpcodeAtEnd(prog, base, i); }
  }
}
