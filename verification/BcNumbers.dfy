/**
  Variable-length numbers of bytecode dumps: ULEB128 (section 7.6 of the DWARF
  standard, version 4), and the form of 33 bits made by patching the last byte.
 */
module BcNumbers {
  import opened Common
  import opened Arith

  datatype Parsed<+T> = Got(value: T, rest: seq<byte>) | Bad

  // ---------------------------------------------------------------- ULEB128

  /** bcwrite_uleb128: seven bits at a time, the lowest first. */
  function Uleb(v: nat): (r: seq<byte>)
    ensures |r| > 0
  {
    if v < 128 then [v] else [v % 128 + 128] + Uleb(v / 128)
  }

  /** The value of a number with at most max bytes still to come, in 32-bit arithmetic; scale is that of the next one.
      More bytes would shift by more than the width of the value. */
  function MoreUleb(s: seq<byte>, v: u32, scale: nat, max: nat): Parsed<u32> {
    if s == [] || max == 0 then Bad
    else
      var v' := (v + s[0] % 128 * scale) % 0x1_0000_0000;
      if s[0] >= 128 then MoreUleb(s[1..], v', scale * 128, max - 1) else Got(v', s[1..])
  }

  /** bcread_uleb128. */
  function ReadUleb(s: seq<byte>): Parsed<u32> {
    MoreUleb(s, 0, 1, 5)
  }

  /** Behind enough bytes, or the end, more input makes no difference. */
  lemma {:induction false} MorePrefix(a: seq<byte>, b: seq<byte>, v: u32, scale: nat, max: nat)
    requires |a| >= max || b == []
    ensures MoreUleb(a + b, v, scale, max)
            == match MoreUleb(a, v, scale, max) case Bad => Bad case Got(x, t) => Got(x, t + b)
  {
    if b == [] {
      assert a + b == a;
      var r := MoreUleb(a, v, scale, max);
      if r.Got? { assert r.rest + b == r.rest; }
    } else if max > 0 {
      assert (a + b)[1..] == a[1..] + b && (a + b)[0] == a[0];
      MorePrefix(a[1..], b, (v + a[0] % 128 * scale) % 0x1_0000_0000, scale * 128, max - 1);
    }
  }

  /** A number is a proper prefix of its input, of at most max bytes. */
  lemma {:induction false} MoreShrinks(s: seq<byte>, v: u32, scale: nat, max: nat)
    ensures var r := MoreUleb(s, v, scale, max);
            r.Got? ==> |s| - max <= |r.rest| < |s| && r.rest == s[|s| - |r.rest|..]
  {
    if s != [] && max > 0 && s[0] >= 128 {
      MoreShrinks(s[1..], (v + s[0] % 128 * scale) % 0x1_0000_0000, scale * 128, max - 1);
    }
  }

  /** Reading back what was written, whatever follows. */
  lemma {:induction false} MoreRoundTrip(v: nat, t: seq<byte>, acc: u32, scale: nat, max: nat)
    requires acc + v * scale < 0x1_0000_0000 && |Uleb(v)| <= max
    ensures MoreUleb(Uleb(v) + t, acc, scale, max) == Got(acc + v * scale, t)
    decreases v
  {
    if v < 128 {
      assert (Uleb(v) + t)[1..] == t;
    } else {
      var q, low := v / 128, v % 128;
      UlebStep(v, q, low);
      hide Uleb;
      var s := Uleb(v) + t;
      assert s[1..] == Uleb(q) + t;
      assert s[0] == low + 128;
      var acc' := acc + low * scale;
      Carry(q, low, scale, acc);
      MoreStep(s, acc, scale, low, max);
      hide MoreUleb;
      MoreRoundTrip(q, t, acc', scale * 128, max - 1);
    }
  }

  lemma UlebStep(v: nat, q: nat, low: nat)
    requires v >= 128 && q == v / 128 && low == v % 128
    ensures Uleb(v) == [low + 128] + Uleb(q) && v == q * 128 + low && q < v && low < 128
  {
  }

  lemma Carry(q: nat, low: nat, scale: nat, acc: nat)
    requires acc + (q * 128 + low) * scale < 0x1_0000_0000
    ensures 0 <= acc + low * scale < 0x1_0000_0000
    ensures acc + low * scale + q * (scale * 128) == acc + (q * 128 + low) * scale
  {
    Split(q, low, scale);
    Product(q, scale * 128);
    Product(low, scale);
  }

  lemma MoreStep(s: seq<byte>, acc: u32, scale: nat, low: nat, max: nat)
    requires |s| > 0 && max > 0 && low < 128 && s[0] == low + 128 && acc + low * scale < 0x1_0000_0000
    ensures 0 <= acc + low * scale
            && MoreUleb(s, acc, scale, max) == MoreUleb(s[1..], acc + low * scale, scale * 128, max - 1)
  {
    Product(low, scale);
    assert s[0] % 128 == low;
    hide MoreUleb;
    var v' := (acc + s[0] % 128 * scale) % 0x1_0000_0000;
    assert v' == acc + low * scale;
    MoreUnfold(s, acc, scale, max);
  }

  lemma MoreUnfold(s: seq<byte>, acc: u32, scale: nat, max: nat)
    requires |s| > 0 && s[0] >= 128 && max > 0
    ensures MoreUleb(s, acc, scale, max)
            == MoreUleb(s[1..], (acc + s[0] % 128 * scale) % 0x1_0000_0000, scale * 128, max - 1)
  {
  }

  lemma Product(a: nat, b: nat)
    ensures a * b >= 0
  {
  }

  lemma Split(q: nat, low: nat, scale: nat)
    ensures (q * 128 + low) * scale == q * (scale * 128) + low * scale
  {
  }

  lemma UlebRoundTrip(v: u32, t: seq<byte>)
    ensures ReadUleb(Uleb(v) + t) == Got(v, t)
  {
    UlebAtMostFive(v);
    MoreRoundTrip(v, t, 0, 1, 5);
  }

  /** Only zero starts with a zero byte. */
  lemma UlebFirst(v: nat)
    ensures Uleb(v)[0] == 0 <==> v == 0
  {
  }

  /** The prefix width that the writer computes from the highest bit. */
  function PrefixWidth(n: nat): nat
    requires n > 0
  {
    (Fls(n) + 8) * 9 / 64
  }

  /** Dividing by 128 takes seven from the highest bit. */
  lemma FlsSeven(n: nat)
    requires n >= 128
    ensures Fls(n) == Fls(n / 128) + 7
  {
    var a, b, c := n / 2, n / 4, n / 8;
    assert a / 2 == b && b / 2 == c && c / 2 == n / 16 && n / 16 / 2 == n / 32 && n / 32 / 2 == n / 64
           && n / 64 / 2 == n / 128;
    assert Fls(n) == 1 + Fls(a) && Fls(a) == 1 + Fls(b) && Fls(b) == 1 + Fls(c);
    assert Fls(c) == 1 + Fls(n / 16) && Fls(n / 16) == 1 + Fls(n / 32) && Fls(n / 32) == 1 + Fls(n / 64)
           && Fls(n / 64) == 1 + Fls(n / 128);
  }

  lemma {:induction false} UlebLength(n: nat)
    requires n > 0
    ensures |Uleb(n)| == Fls(n) / 7 + 1
  {
    if n < 128 {
      FlsBounds(n);
      if Fls(n) >= 7 { Pow2Monotone(7, Fls(n)); }
      assert Pow2(7) == 128;
    } else {
      FlsSeven(n);
      UlebLength(n / 128);
    }
  }

  /** The precomputed width is exactly the length, for every 32-bit size. */
  lemma PrefixWidthExact(n: u32)
    requires n > 0
    ensures PrefixWidth(n) == |Uleb(n)| <= 5
  {
    UlebLength(n);
    FlsOfWord(n);
    WidthTable(Fls(n));
  }

  lemma FlsOfWord(n: u32)
    requires n > 0
    ensures Fls(n) < 32
  {
    hide Fls;
    FlsBounds(n);
    if Fls(n) >= 32 {
      Pow2Monotone(32, Fls(n));
      Pow2Word();
    }
  }

  lemma Pow2Word()
    ensures Pow2(32) == 0x1_0000_0000
  {
    assert Pow2(8) == 256;
    Pow2Add(8, 8);
    Pow2Add(16, 16);
  }

  lemma WidthTable(f: nat)
    requires f < 32
    ensures (f + 8) * 9 / 64 == f / 7 + 1 <= 5
  {
  }

  /** A 32-bit number takes at most five bytes. */
  lemma UlebAtMostFive(v: u32)
    ensures 1 <= |Uleb(v)| <= 5
  {
    if v > 0 { PrefixWidthExact(v); }
  }

  // ---------------------------------------------------------------- 33 bits

  /** The low bit tells the kind of number, the upper 32 are its payload: bcwrite_uleb128 of a value with the top
      payload bit doubled, whose last byte is then patched. */
  function Uleb33(low: nat, k: u32): (r: seq<byte>)
    requires low <= 1
    ensures |r| > 0
  {
    if k < 0x8000_0000 then Uleb(low + 2 * k)
    else
      var plain := Uleb(Doubled(low, k));
      var last := plain[|plain| - 1];
      plain[|plain| - 1 := last % 8 + k / 0x4000_0000 * 8]
  }

  /** The upper 32 bits of the number whose bytes still to come start at bit sh of the payload. */
  function ReadUleb33(s: seq<byte>): Parsed<u32> {
    if s == [] then Bad
    else if s[0] < 128 then Got(s[0] / 2, s[1..])
    else MoreUleb(s[1..], s[0] % 128 / 2, 64, 4)
  }

  /** The patched bytes are those of the 33-bit value. */
  lemma PatchedIsPlain(low: nat, k: u32)
    requires low <= 1
    ensures Uleb33(low, k) == Uleb(low + 2 * k)
  {
    if k >= 0x8000_0000 {
      var j := 1 + (k - 0x8000_0000) / 0x4000_0000;
      var v, w := low + 2 * k, Doubled(low, k);
      var plain := Uleb(w);
      assert Uleb33(low, k) == plain[|plain| - 1 := plain[|plain| - 1] % 8 + k / 0x4000_0000 * 8];
      hide Uleb33;
      hide Uleb;
      DoubledIs(low, k);
      FiveBytes(v);
      FiveBytes(w);
      SameLowBytes(w, j);
      LastByte(low, k);
      hide Doubled;
      PatchLast(plain, Uleb(v), k / 0x4000_0000 * 8);
    }
  }

  lemma PatchLast(a: seq<byte>, b: seq<byte>, x: nat)
    requires |a| == |b| == 5 && a[..4] == b[..4] && b[4] == a[4] % 8 + x
    ensures 0 <= a[4] % 8 + x < 256 && a[4 := a[4] % 8 + x] == b
  {
    assert forall i :: 0 <= i < 4 ==> a[..4][i] == a[i] && b[..4][i] == b[i];
  }

  /** The value written before the patch. */
  function Doubled(low: nat, k: u32): nat {
    low + (2 * k) % 0x1_0000_0000 - (2 * k) % 0x1_0000_0000 / 0x8000_0000 * 0x8000_0000 + 0x8000_0000
  }

  lemma DoubledIs(low: nat, k: u32)
    requires low <= 1 && k >= 0x8000_0000
    ensures 0x8000_0000 <= Doubled(low, k) < 0x1_0000_0000
    ensures low + 2 * k == Doubled(low, k) + (1 + (k - 0x8000_0000) / 0x4000_0000) * 0x8000_0000
  {
    var m := k - 0x8000_0000;
    assert (2 * k) % 0x1_0000_0000 == 2 * m;
    assert 2 * m / 0x8000_0000 == m / 0x4000_0000;
  }

  lemma LastByte(low: nat, k: u32)
    requires low <= 1 && k >= 0x8000_0000
    ensures (low + 2 * k) / 0x1000_0000 == Doubled(low, k) / 0x1000_0000 % 8 + k / 0x4000_0000 * 8
  {
    DoubledIs(low, k);
    var w := Doubled(low, k);
    var j := 1 + (k - 0x8000_0000) / 0x4000_0000;
    hide Doubled;
    assert k / 0x4000_0000 == 1 + j;
    assert 8 <= w / 0x1000_0000 < 16;
  }

  /** Numbers of 32 and 33 bits with one of the upper bits set take five bytes. */
  lemma FiveBytes(v: nat)
    requires 0x1000_0000 <= v < 0x2_0000_0000
    ensures Uleb(v) == [v % 128 + 128, v / 128 % 128 + 128, v / 0x4000 % 128 + 128, v / 0x20_0000 % 128 + 128,
                        v / 0x1000_0000]
  {
    var a := v / 128;
    var b := a / 128;
    var c := b / 128;
    var d := c / 128;
    assert b == v / 0x4000 && c == v / 0x20_0000 && d == v / 0x1000_0000;
    assert 0 < d < 128 && c >= 128 && b >= 128 && a >= 128;
    assert Uleb(d) == [d];
    assert Uleb(c) == [c % 128 + 128] + Uleb(d);
    assert Uleb(b) == [b % 128 + 128] + Uleb(c);
    assert Uleb(a) == [a % 128 + 128] + Uleb(b);
    assert Uleb(v) == [v % 128 + 128] + Uleb(a);
  }

  /** Adding multiples of 2^31 changes only the last of five bytes. */
  lemma SameLowBytes(w: nat, j: nat)
    ensures var v := w + j * 0x8000_0000;
            && v % 128 == w % 128 && v / 128 % 128 == w / 128 % 128 && v / 0x4000 % 128 == w / 0x4000 % 128
            && v / 0x20_0000 % 128 == w / 0x20_0000 % 128
  {
    SameDigit(w, j * 0x100_0000, 1);
    SameDigit(w, j * 0x2_0000, 128);
    SameDigit(w, j * 0x400, 0x4000);
    SameDigit(w, j * 8, 0x20_0000);
  }

  lemma SameDigit(w: nat, e: nat, d: nat)
    requires d == 1 || d == 128 || d == 0x4000 || d == 0x20_0000
    ensures (w + e * 128 * d) / d % 128 == w / d % 128
  {
    assert (w + e * 128 * d) / d == w / d + e * 128;
  }

  lemma Halved(low: nat, k: u32)
    requires low <= 1
    ensures var v := low + 2 * k; v % 128 == 2 * (k % 64) + low && v / 128 == k / 64
  {
    DivUnique(low + 2 * k, 128, k / 64, 2 * (k % 64) + low);
  }

  lemma Uleb33RoundTrip(low: nat, k: u32, t: seq<byte>)
    requires low <= 1
    ensures var s := Uleb33(low, k) + t;
            |s| > 0 && s[0] % 2 == low && ReadUleb33(s) == Got(k, t)
  {
    PatchedIsPlain(low, k);
    hide Uleb33;
    var v := low + 2 * k;
    var s := Uleb(v) + t;
    Halved(low, k);
    assert v % 128 / 2 == k % 64 && k == k / 64 * 64 + k % 64;
    if v < 128 {
      assert s[1..] == t;
    } else {
      var q := v / 128;
      assert s[1..] == Uleb(q) + t;
      assert s[0] == v % 128 + 128;
      Uleb33AtMostFive(low, k);
      MoreRoundTrip(q, t, v % 128 / 2, 64, 4);
    }
  }

  lemma Uleb33AtMostFive(low: nat, k: u32)
    requires low <= 1
    ensures |Uleb33(low, k)| <= 5
  {
    if k < 0x8000_0000 { UlebAtMostFive(low + 2 * k); } else { PatchedIsPlain(low, k); FiveBytes(low + 2 * k); }
  }
}
