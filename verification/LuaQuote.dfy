/**
  The %q conversion of string.format: a string as a literal that the Lua
  scanner reads back (section 2.1 of the Lua 5.1 Reference Manual).
 */
module LuaQuote {
  import opened Common
  import opened LuaPattern

  const QUOTE: byte := 34
  const BACKSLASH: byte := 92
  const NEWLINE: byte := 10

  // ---------------------------------------------------------------- reading a literal

  datatype Literal = Closes(value: seq<byte>, rest: seq<byte>) | NotALiteral

  function Then(c: byte, r: Literal): Literal {
    match r
    case Closes(v, t) => Closes([c] + v, t)
    case NotALiteral => NotALiteral
  }

  /** The byte that a letter behind a backslash stands for. */
  function Control(c: byte): (r: int)
    ensures r < 256
  {
    match c
    case 97 => 7
    case 98 => 8
    case 102 => 12
    case 110 => 10
    case 114 => 13
    case 116 => 9
    case 118 => 11
    case _ => -1
  }

  /** How many of up to three decimal digits start t. */
  function Digits(t: seq<byte>, max: nat): (n: nat)
    ensures n <= max && n <= |t| && (n < max && n < |t| ==> !IsDigit(t[n])) && forall i :: 0 <= i < n ==> IsDigit(t[i])
  {
    if max == 0 || t == [] || !IsDigit(t[0]) then 0 else 1 + Digits(t[1..], max - 1)
  }

  function Value(t: seq<byte>): nat
    requires forall i :: 0 <= i < |t| ==> IsDigit(t[i])
  {
    if t == [] then 0 else
      assert IsDigit(t[|t| - 1]);
      10 * Value(t[..|t| - 1]) + (t[|t| - 1] - 48)
  }

  /** The rest of a literal behind its opening quote. */
  function Scan(t: seq<byte>): Literal
    decreases |t|
  {
    if t == [] || t[0] == NEWLINE then NotALiteral
    else if t[0] == QUOTE then Closes([], t[1..])
    else if t[0] != BACKSLASH then Then(t[0], Scan(t[1..]))
    else if |t| < 2 then NotALiteral
    else
      var n := Digits(t[1..], 3);
      if n > 0 then
        var v := Value(t[1..][..n]);
        if v > 255 then NotALiteral else Then(v, Scan(t[1 + n..]))
      else if Control(t[1]) >= 0 then Then(Control(t[1]), Scan(t[2..]))
      else if t[1] == BACKSLASH || t[1] == QUOTE || t[1] == 39 || t[1] == NEWLINE then Then(t[1], Scan(t[2..]))
      else NotALiteral
  }

  // ---------------------------------------------------------------- writing one

  /** The bytes for c when next follows: control characters become as few digits as the next byte allows. */
  function Escape(c: byte, next: byte): seq<byte> {
    if c == QUOTE || c == BACKSLASH || c == NEWLINE then [BACKSLASH, c]
    else if !IsCntrl(c) then [c]
    else if c >= 100 || IsDigit(next) then [BACKSLASH, 48 + c / 100, 48 + c / 10 % 10, 48 + c % 10]
    else if c >= 10 then [BACKSLASH, 48 + c / 10, 48 + c % 10]
    else [BACKSLASH, 48 + c]
  }

  function Escapes(s: seq<byte>): seq<byte> {
    if s == [] then [QUOTE] else Escape(s[0], At(s, 1)) + Escapes(s[1..])
  }

  /** The whole literal. */
  function Quoted(s: seq<byte>): seq<byte> {
    [QUOTE] + Escapes(s)
  }

  /** addquoted. */
  method AddQuoted(s: seq<byte>) returns (b: seq<byte>)
    ensures b == Quoted(s)
  {
    hide Escape;
    b := [QUOTE];
    var i := 0;
    while i < |s|
      invariant 0 <= i <= |s| && Quoted(s) == b + Escapes(s[i..])
    {
      ghost var e := Escape(s[i], At(s, i + 1));
      assert Escapes(s[i..]) == e + Escapes(s[i + 1..]) by { assert s[i..][1..] == s[i + 1..]; }
      assert b + (e + Escapes(s[i + 1..])) == b + e + Escapes(s[i + 1..]);
      b := AddEscaped(b, s[i], At(s, i + 1));
      i := i + 1;
    }
    b := b + [QUOTE];
  }

  /** One round of its loop. */
  method AddEscaped(b0: seq<byte>, c0: byte, next: byte) returns (b: seq<byte>)
    ensures b == b0 + Escape(c0, next)
  {
    b := b0;
    var c: int := c0;
    if c == QUOTE || c == BACKSLASH || c == NEWLINE {
      b := b + [BACKSLASH];
    } else if IsCntrl(c) {
      b := b + [BACKSLASH];
      if c >= 100 || IsDigit(next) {
        b := b + [if c >= 100 then 49 else 48];
        if c >= 100 { c := c - 100; }
        b, c := AddTens(b, c);
      } else if c >= 10 {
        b, c := AddTens(b, c);
      }
      c := c + 48;
    }
    b := b + [c];
  }

  method AddTens(b0: seq<byte>, c0: int) returns (b: seq<byte>, c: int)
    requires 0 <= c0 < 100
    ensures b == b0 + [48 + c0 / 10] && c == c0 % 10
  {
    Tens(c0);
    var d := c0 * 205 / 2048;
    c := c0 - d * 10;
    b := b0 + [48 + d];
  }

  /** The multiplication that replaces a division by ten. */
  lemma Tens(c: int)
    requires 0 <= c < 100
    ensures c * 205 / 2048 == c / 10 < 10 && c - c / 10 * 10 == c % 10
  {
  }

  // ---------------------------------------------------------------- the round trip

  /** What follows an escape with few digits does not start with a digit. */
  lemma EscapesStart(s: seq<byte>)
    ensures Escapes(s) != [] && (IsDigit(Escapes(s)[0]) <==> s != [] && IsDigit(s[0]))
  {
    if s != [] { assert Escapes(s)[0] == Escape(s[0], At(s, 1))[0]; }
  }

  lemma {:induction false} ScanEscapes(s: seq<byte>, t: seq<byte>)
    ensures Scan(Escapes(s) + t) == Closes(s, t)
  {
    hide Escape;
    if s == [] {
      assert (Escapes(s) + t)[1..] == t;
    } else {
      hide Scan;
      var c, rest := s[0], Escapes(s[1..]) + t;
      EscapesStart(s[1..]);
      assert At(s, 1) == At(s[1..], 0);
      assert Escapes(s) + t == Escape(c, At(s, 1)) + rest;
      ScanEscape(c, At(s, 1), rest);
      ScanEscapes(s[1..], t);
      assert [s[0]] + s[1..] == s;
    }
  }

  lemma ScanEscape(c: byte, next: byte, rest: seq<byte>)
    requires rest != [] && (IsDigit(rest[0]) ==> IsDigit(next))
    ensures Scan(Escape(c, next) + rest) == Then(c, Scan(rest))
  {
    hide Scan;
    if c == QUOTE || c == BACKSLASH || c == NEWLINE || !IsCntrl(c) {
      ScanPlain(c, next, rest);
    } else {
      var ds := DigitsOf(c, next);
      hide Escape;
      DigitsThen(ds, rest, c);
    }
  }

  lemma DigitsOf(c: byte, next: byte) returns (ds: seq<byte>)
    requires IsCntrl(c) && c != NEWLINE
    ensures Escape(c, next) == [BACKSLASH] + ds && 1 <= |ds| <= 3 && (|ds| == 3 || !IsDigit(next))
    ensures (forall i :: 0 <= i < |ds| ==> IsDigit(ds[i])) && Value(ds) == c
  {
    hide Value;
    if c >= 100 || IsDigit(next) {
      ds := [48 + c / 100, 48 + c / 10 % 10, 48 + c % 10];
      ThreeDigits(c);
    } else if c >= 10 {
      ds := [48 + c / 10, 48 + c % 10];
      TwoDigits(c);
    } else {
      ds := [48 + c];
      OneDigit(c);
    }
  }

  lemma ScanPlain(c: byte, next: byte, rest: seq<byte>)
    requires c == QUOTE || c == BACKSLASH || c == NEWLINE || !IsCntrl(c)
    ensures Scan(Escape(c, next) + rest) == Then(c, Scan(rest))
  {
    var t := Escape(c, next) + rest;
    if c == QUOTE || c == BACKSLASH || c == NEWLINE {
      assert t[0] == BACKSLASH && t[1] == c && t[2..] == rest;
      assert Digits(t[1..], 3) == 0;
    } else {
      assert t[0] == c && t[1..] == rest;
    }
  }

  lemma OneDigit(c: byte)
    requires c < 10
    ensures Value([48 + c]) == c
  {
    assert [48 + c][..0] == [];
  }

  lemma TwoDigits(c: byte)
    requires c < 100
    ensures Value([48 + c / 10, 48 + c % 10]) == c
  {
    var ds := [48 + c / 10, 48 + c % 10];
    assert ds[..1] == [48 + c / 10];
    OneDigit(c / 10);
  }

  lemma ThreeDigits(c: byte)
    ensures Value([48 + c / 100, 48 + c / 10 % 10, 48 + c % 10]) == c
  {
    var ds := [48 + c / 100, 48 + c / 10 % 10, 48 + c % 10];
    var e := c / 10;
    assert e / 10 == c / 100;
    assert ds[..2] == [48 + e / 10, 48 + e % 10];
    TwoDigits(e);
  }

  /** A decimal escape of one to three digits. */
  lemma DigitsThen(ds: seq<byte>, rest: seq<byte>, c: byte)
    requires 1 <= |ds| <= 3 && (forall i :: 0 <= i < |ds| ==> IsDigit(ds[i])) && Value(ds) == c
    requires rest != [] && (|ds| == 3 || !IsDigit(rest[0]))
    ensures Scan([BACKSLASH] + ds + rest) == Then(c, Scan(rest))
  {
    var t := [BACKSLASH] + ds + rest;
    assert t[1..] == ds + rest;
    CountDigits(ds, rest, 3);
    assert t[1..][..|ds|] == ds && t[1 + |ds|..] == rest;
  }

  lemma {:induction false} CountDigits(ds: seq<byte>, rest: seq<byte>, max: nat)
    requires |ds| <= max && (forall i :: 0 <= i < |ds| ==> IsDigit(ds[i])) && rest != []
             && (|ds| == max || !IsDigit(rest[0]))
    ensures Digits(ds + rest, max) == |ds|
  {
    if ds != [] {
      assert (ds + rest)[1..] == ds[1..] + rest;
      CountDigits(ds[1..], rest, max - 1);
    } else {
      assert ds + rest == rest;
    }
  }

  /** The scanner reads the literal back, for every string of bytes. */
  lemma QuoteRoundTrip(s: seq<byte>, t: seq<byte>)
    ensures var q := Quoted(s) + t; q[0] == QUOTE && Scan(q[1..]) == Closes(s, t)
  {
    ScanEscapes(s, t);
    assert (Quoted(s) + t)[1..] == Escapes(s) + t;
  }

  // ---------------------------------------------------------------- the shortest escapes

  /** A control character other than a newline has the shortest decimal escape that the next byte does not go on with;
      quotes, backslashes and newlines have a backslash in front, and all else is written as it is. */
  lemma EscapeIsShortest(c: byte, next: byte, ds: seq<byte>)
    requires 1 <= |ds| <= 3 && (forall i :: 0 <= i < |ds| ==> IsDigit(ds[i])) && Value(ds) == c
    requires |ds| == 3 || !IsDigit(next)
    ensures IsCntrl(c) && c != NEWLINE ==> Escape(c, next)[0] == BACKSLASH && |Escape(c, next)| <= 1 + |ds|
    ensures !IsCntrl(c) && c != QUOTE && c != BACKSLASH ==> Escape(c, next) == [c]
    ensures c == NEWLINE || c == QUOTE || c == BACKSLASH ==> Escape(c, next) == [BACKSLASH, c]
  {
    ValueBelow(ds);
  }

  lemma {:induction false} ValueBelow(ds: seq<byte>)
    requires forall i :: 0 <= i < |ds| ==> IsDigit(ds[i])
    ensures (|ds| == 1 ==> Value(ds) < 10) && (|ds| == 2 ==> Value(ds) < 100)
  {
    if 1 <= |ds| <= 2 { ValueBelow(ds[..|ds| - 1]); }
    if |ds| == 1 { assert Value(ds[..0]) == 0; }
  }

  /** No control character is left in the literal but newlines, each behind a backslash. */
  lemma {:induction false} EscapesAreClean(s: seq<byte>, i: nat)
    requires i < |Escapes(s)| && IsCntrl(Escapes(s)[i])
    ensures Escapes(s)[i] == NEWLINE && i > 0 && Escapes(s)[i - 1] == BACKSLASH
  {
    if s != [] {
      var e := Escape(s[0], At(s, 1));
      assert Escapes(s) == e + Escapes(s[1..]);
      if i >= |e| {
        EscapesAreClean(s[1..], i - |e|);
      } else {
        assert Escapes(s)[i] == e[i];
      }
    }
  }
}
