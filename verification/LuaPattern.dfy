/**
  Lua patterns: their items, and what it means for a pattern to match a subject
  at a position.
 */
module LuaPattern {
  import opened Common

  const ESC: byte := 37
  const MAXCAPTURES: nat := 32
  const MAXDEPTH: nat := 200

  // ---------------------------------------------------------------- characters

  predicate IsDigit(c: byte) { 48 <= c <= 57 }
  predicate IsUpper(c: byte) { 65 <= c <= 90 }
  predicate IsLower(c: byte) { 97 <= c <= 122 }
  predicate IsAlpha(c: byte) { IsUpper(c) || IsLower(c) }
  predicate IsCntrl(c: byte) { c < 32 || c == 127 }
  predicate IsSpace(c: byte) { 9 <= c <= 13 || c == 32 }
  predicate IsPunct(c: byte) { 33 <= c <= 47 || 58 <= c <= 64 || 91 <= c <= 96 || 123 <= c <= 126 }
  predicate IsXdigit(c: byte) { IsDigit(c) || 65 <= c <= 70 || 97 <= c <= 102 }

  /** Does c belong to the class named by a letter; the letters without a class have none. */
  predicate ClassHas(letter: byte, c: byte) {
    match letter
    case 97 => IsAlpha(c)
    case 99 => IsCntrl(c)
    case 100 => IsDigit(c)
    case 103 => IsAlpha(c) || IsDigit(c) || IsPunct(c)
    case 108 => IsLower(c)
    case 112 => IsPunct(c)
    case 115 => IsSpace(c)
    case 117 => IsUpper(c)
    case 119 => IsAlpha(c) || IsDigit(c)
    case 120 => IsXdigit(c)
    case 122 => c == 0
    case _ => false
  }

  predicate IsClassLetter(letter: byte) {
    letter in {97, 99, 100, 103, 108, 112, 115, 117, 119, 120, 122}
  }

  /** match_class: a class letter, its upper-case complement, or a literal. */
  predicate MatchClass(c: byte, cl: byte) {
    if IsClassLetter(cl) then ClassHas(cl, c)
    else if IsUpper(cl) && IsClassLetter(cl + 32) then !ClassHas(cl + 32, c)
    else cl == c
  }

  /** An upper-case letter has what the lower-case one lacks; alphanumeric characters are letters and digits, letters
      are in upper or lower case, and graphic ones are alphanumeric or punctuation; every ASCII byte is a control
      character, a graphic one or the blank, and no other byte is in any of these. */
  lemma ClassesMean(c: byte)
    ensures forall x: byte | IsClassLetter(x) :: MatchClass(c, x - 32) <==> !MatchClass(c, x)
    ensures MatchClass(c, 119) <==> MatchClass(c, 97) || MatchClass(c, 100)
    ensures !(MatchClass(c, 97) && MatchClass(c, 100))
    ensures MatchClass(c, 97) <==> MatchClass(c, 108) || MatchClass(c, 117)
    ensures !(MatchClass(c, 108) && MatchClass(c, 117))
    ensures MatchClass(c, 103) <==> MatchClass(c, 119) || MatchClass(c, 112)
    ensures !(MatchClass(c, 119) && MatchClass(c, 112))
    ensures c < 128 <==> MatchClass(c, 99) || MatchClass(c, 103) || c == 32
    ensures !(MatchClass(c, 99) && MatchClass(c, 103))
    ensures MatchClass(c, 100) ==> MatchClass(c, 120)
    ensures MatchClass(c, 120) && !MatchClass(c, 100) ==> MatchClass(c, 97)
    ensures MatchClass(c, 115) ==> MatchClass(c, 99) || c == 32
    ensures MatchClass(c, 122) <==> c == 0
  {
    forall x: byte | IsClassLetter(x) ensures MatchClass(c, x - 32) <==> !MatchClass(c, x) {
      assert !IsClassLetter(x - 32) && IsUpper(x - 32);
    }
  }

  /** The byte at a position; a terminating zero follows the last one. */
  function At(t: seq<byte>, i: nat): byte {
    if i < |t| then t[i] else 0
  }

  // ---------------------------------------------------------------- classes

  datatype Error = EndsInEscape | MissingBracket | Unbalanced | NoFrontierSet | BadCaptureIndex | BadPatternCapture
                 | TooManyCaptures | TooDeep

  datatype End = Ends(at: nat) | Malformed(err: Error)

  /** The end of a set, from a position inside it on. */
  function SetEnd(pat: seq<byte>, q: nat): (r: End)
    ensures r.Ends? ==> q + 1 < r.at <= |pat| && At(pat, r.at - 1) == 93
    decreases |pat| - q
  {
    if At(pat, q) == 0 then Malformed(MissingBracket)
    else
      var q' := if At(pat, q) == ESC && At(pat, q + 1) != 0 then q + 2 else q + 1;
      if At(pat, q') == 93 then Ends(q' + 1) else SetEnd(pat, q')
  }

  /** classend. */
  function ClassEnd(pat: seq<byte>, p: nat): (r: End)
    requires At(pat, p) != 0
    ensures r.Ends? ==> p < r.at <= |pat|
    ensures r.Ends? && At(pat, p) == 91 ==> r.at >= p + 3
  {
    if At(pat, p) == ESC then (if At(pat, p + 1) == 0 then Malformed(EndsInEscape) else Ends(p + 2))
    else if At(pat, p) == 91 then SetEnd(pat, if At(pat, p + 1) == 94 then p + 2 else p + 1)
    else Ends(p + 1)
  }

  /** Is c among the elements of a set from position q up to its bracket at ec? */
  predicate InSet(c: byte, pat: seq<byte>, q: nat, ec: nat)
    decreases ec - q
  {
    if q >= ec then false
    else if At(pat, q) == ESC then MatchClass(c, At(pat, q + 1)) || InSet(c, pat, q + 2, ec)
    else if At(pat, q + 1) == 45 && q + 2 < ec then At(pat, q) <= c <= At(pat, q + 2) || InSet(c, pat, q + 3, ec)
    else At(pat, q) == c || InSet(c, pat, q + 1, ec)
  }

  /** The set that opens at p and closes at ec. */
  predicate SetHas(c: byte, pat: seq<byte>, p: nat, ec: nat) {
    if At(pat, p + 1) == 94 then !InSet(c, pat, p + 2, ec) else InSet(c, pat, p + 1, ec)
  }

  /** singlematch: the class from p up to ep accepts c. */
  predicate Single(c: byte, pat: seq<byte>, p: nat, ep: nat) {
    if At(pat, p) == 46 then true
    else if At(pat, p) == ESC then MatchClass(c, At(pat, p + 1))
    else if At(pat, p) == 91 then ep > 0 && SetHas(c, pat, p, ep - 1)
    else At(pat, p) == c
  }

  // ---------------------------------------------------------------- sets as lists

  /** What a set is made of: a class letter, a range, a character. */
  datatype Element = Class(letter: byte) | Range(lo: byte, hi: byte) | Char(c: byte)

  predicate Contains(el: Element, c: byte) {
    match el
    case Class(letter) => MatchClass(c, letter)
    case Range(lo, hi) => lo <= c <= hi
    case Char(x) => x == c
  }

  function ElementText(el: Element): (r: seq<byte>)
    ensures |r| > 0
  {
    match el
    case Class(letter) => [ESC, letter]
    case Range(lo, hi) => [lo, 45, hi]
    case Char(c) => [c]
  }

  function SetText(els: seq<Element>): seq<byte> {
    if els == [] then [] else ElementText(els[0]) + SetText(els[1..])
  }

  predicate ElementOk(el: Element, first: bool) {
    match el
    case Class(letter) => letter != 0
    case Range(lo, hi) => lo != 0 && lo != ESC && hi != 0 && hi != ESC && hi != 93 && (first || lo != 93)
    case Char(c) => c != 0 && c != ESC && (first || c != 93)
  }

  /** Elements that can stand side by side: a closing bracket comes first, a character is not followed by a
      dash, and only a class letter has an escape in front of it. */
  predicate Writable(els: seq<Element>, first: bool) {
    els != [] ==>
      && ElementOk(els[0], first)
      && (els[0].Char? && |els| > 1 ==> ElementText(els[1])[0] != 45)
      && Writable(els[1..], false)
  }

  lemma TextSplits(pat: seq<byte>, q: nat, ec: nat, els: seq<Element>)
    requires els != [] && q <= ec <= |pat| && pat[q..ec] == SetText(els)
    ensures var n := |ElementText(els[0])|;
            && q + n <= ec && pat[q..q + n] == ElementText(els[0]) && pat[q + n..ec] == SetText(els[1..])
            && forall i :: 0 <= i < n ==> At(pat, q + i) == ElementText(els[0])[i]
  {
    var t, n := ElementText(els[0]), |ElementText(els[0])|;
    assert pat[q..ec][..n] == t && pat[q..ec][n..] == SetText(els[1..]);
    assert forall i :: 0 <= i < n ==> pat[q..ec][i] == pat[q + i];
  }

  /** Some element contains c. */
  ghost predicate AnyContains(els: seq<Element>, c: byte) {
    exists i :: 0 <= i < |els| && Contains(els[i], c)
  }

  lemma AnyFirst(els: seq<Element>, c: byte)
    requires els != []
    ensures AnyContains(els, c) <==> Contains(els[0], c) || AnyContains(els[1..], c)
  {
    hide Contains;
    if i :| 0 <= i < |els| && Contains(els[i], c) {
      if i > 0 { assert els[1..][i - 1] == els[i]; }
    }
    if i :| 0 <= i < |els[1..]| && Contains(els[1..][i], c) {
      assert els[i + 1] == els[1..][i];
    }
  }

  /** A set has what its first element has, and what the rest has. */
  lemma ElementInSet(c: byte, pat: seq<byte>, q: nat, ec: nat, el: Element, first: bool)
    requires q + |ElementText(el)| <= ec <= |pat| && ElementOk(el, first)
    requires forall i :: 0 <= i < |ElementText(el)| ==> At(pat, q + i) == ElementText(el)[i]
    requires el.Char? && q + 1 < ec ==> At(pat, q + 1) != 45
    ensures InSet(c, pat, q, ec) <==> Contains(el, c) || InSet(c, pat, q + |ElementText(el)|, ec)
  {
    hide MatchClass;
    var t := ElementText(el);
    assert At(pat, q) == t[0];
    if |t| > 1 { assert At(pat, q + 1) == t[1]; }
    if |t| > 2 { assert At(pat, q + 2) == t[2]; }
    if el.Char? && q + 1 == ec { assert !InSet(c, pat, q + 1, ec); }
  }

  /** A set has exactly what one of its elements has. */
  lemma {:induction false} SetMeans(c: byte, pat: seq<byte>, q: nat, ec: nat, els: seq<Element>, first: bool)
    requires q <= ec <= |pat| && pat[q..ec] == SetText(els) && Writable(els, first)
    ensures InSet(c, pat, q, ec) <==> AnyContains(els, c)
    decreases |els|
  {
    hide AnyContains;
    if els != [] {
      hide InSet;
      hide Contains;
      AnyFirst(els, c);
      TextSplits(pat, q, ec, els);
      var q', rest := q + |ElementText(els[0])|, els[1..];
      if rest != [] { TextSplits(pat, q', ec, rest); }
      assert rest == [] ==> q' == ec;
      assert els[0].Char? && q' < ec ==> At(pat, q + 1) != 45;
      hide SetText;
      hide ElementOk;
      SetMeans(c, pat, q', ec, rest, false);
      hide Writable;
      ElementInSet(c, pat, q, ec, els[0], first);
    } else {
      NoneContains(c);
    }
  }

  lemma NoneContains(c: byte)
    ensures !AnyContains([], c)
  {
  }

  /** The scan for the closing bracket passes over one element. */
  lemma SetEndElement(pat: seq<byte>, q: nat, el: Element, first: bool)
    requires ElementOk(el, first) && forall i :: 0 <= i < |ElementText(el)| ==> At(pat, q + i) == ElementText(el)[i]
    ensures var q' := q + |ElementText(el)|;
            SetEnd(pat, q) == if At(pat, q') == 93 then Ends(q' + 1) else SetEnd(pat, q')
  {
    var t := ElementText(el);
    assert At(pat, q) == t[0];
    if |t| > 1 { assert At(pat, q + 1) == t[1]; }
    if |t| > 2 {
      assert At(pat, q + 2) == t[2];
      assert SetEnd(pat, q + 1) == SetEnd(pat, q + 2);
    }
  }

  /** And it ends at the bracket behind them. */
  lemma {:induction false} SetEndMeans(pat: seq<byte>, q: nat, ec: nat, els: seq<Element>, first: bool)
    requires q <= ec < |pat| && pat[q..ec] == SetText(els) && Writable(els, first) && pat[ec] == 93 && els != []
    ensures SetEnd(pat, q) == Ends(ec + 1)
    decreases |els|
  {
    hide SetEnd;
    hide ElementText;
    TextSplits(pat, q, ec, els);
    var q', rest := q + |ElementText(els[0])|, els[1..];
    SetEndElement(pat, q, els[0], first);
    if rest != [] {
      TextSplits(pat, q', ec, rest);
      SetEndMeans(pat, q', ec, rest, false);
      FirstByte(rest[0]);
    }
  }

  lemma FirstByte(el: Element)
    requires ElementOk(el, false)
    ensures ElementText(el)[0] != 93
  {
  }

  // ---------------------------------------------------------------- items

  datatype Quant = Optional | Star | Plus | Lazy

  /** The items of a pattern; next is where the following item starts. */
  datatype Item =
    | Open(next: nat) | Position(next: nat) | Close(next: nat)
    | Balance(b: byte, e: byte, next: nat) | Frontier(brk: nat, next: nat) | Back(digit: byte, next: nat)
    | Stop | Dollar
    | Once(cls: nat, ep: nat, next: nat) | Repeat(cls: nat, ep: nat, q: Quant, next: nat)
    | Bad(err: Error)

  function ClassItem(pat: seq<byte>, p: nat): (r: Item)
    requires At(pat, p) != 0
    ensures r.Bad? || ((r.Once? || r.Repeat?) && p < r.ep <= r.next <= |pat| && r.cls == p
                       && (At(pat, p) == 91 ==> p + 3 <= r.ep))
  {
    match ClassEnd(pat, p)
    case Malformed(e) => Bad(e)
    case Ends(ep) =>
      match At(pat, ep)
      case 63 => Repeat(p, ep, Optional, ep + 1)
      case 42 => Repeat(p, ep, Star, ep + 1)
      case 43 => Repeat(p, ep, Plus, ep + 1)
      case 45 => Repeat(p, ep, Lazy, ep + 1)
      case _ => Once(p, ep, ep)
  }

  function ItemAt(pat: seq<byte>, p: nat): (r: Item)
    ensures !r.Bad? && !r.Stop? && !r.Dollar? ==> p < r.next <= |pat|
  {
    match At(pat, p)
    case 40 => if At(pat, p + 1) == 41 then Position(p + 2) else Open(p + 1)
    case 41 => Close(p + 1)
    case 37 =>
      var d := At(pat, p + 1);
      if d == 98 then
        (if At(pat, p + 2) == 0 || At(pat, p + 3) == 0 then Bad(Unbalanced)
         else Balance(At(pat, p + 2), At(pat, p + 3), p + 4))
      else if d == 102 then
        (if At(pat, p + 2) != 91 then Bad(NoFrontierSet)
         else match ClassEnd(pat, p + 2)
           case Malformed(e) => Bad(e)
           case Ends(ep) => Frontier(p + 2, ep))
      else if IsDigit(d) then Back(d, p + 2)
      else ClassItem(pat, p)
    case 0 => Stop
    case 36 => if At(pat, p + 1) == 0 then Dollar else ClassItem(pat, p)
    case _ => ClassItem(pat, p)
  }

  // ---------------------------------------------------------------- captures

  const UNFINISHED: int := -1
  const POSITION: int := -2

  datatype Capture = Capture(init: nat, len: int)

  /** Captures lie in the part of the subject before s. */
  ghost predicate CapturesOk(caps: seq<Capture>, s: nat) {
    |caps| <= MAXCAPTURES
    && forall i :: 0 <= i < |caps| ==> caps[i].init <= s && caps[i].len >= POSITION && caps[i].init + caps[i].len <= s
  }

  /** The innermost unfinished capture; the length if there is none. */
  function ToClose(caps: seq<Capture>): (r: nat)
    ensures r <= |caps| && (r < |caps| ==> caps[r].len == UNFINISHED)
    ensures forall i :: 0 <= i < |caps| && caps[i].len == UNFINISHED ==> i <= r < |caps|
  {
    if caps == [] then 0
    else
      var k := |caps| - 1;
      if caps[k].len == UNFINISHED then k else
        var r := ToClose(caps[..k]);
        if r == k then |caps| else r
  }

  // ---------------------------------------------------------------- single steps

  /** A balanced stretch: the position behind the bracket that closes the one counted last. */
  function BalanceEnd(src: seq<byte>, i: nat, b: byte, e: byte, cont: nat): (r: End)
    requires cont > 0
    ensures r.Ends? ==> i < r.at <= |src|
    decreases |src| - i
  {
    if i >= |src| then Malformed(Unbalanced)
    else if src[i] == e then (if cont == 1 then Ends(i + 1) else BalanceEnd(src, i + 1, b, e, cont - 1))
    else BalanceEnd(src, i + 1, b, e, if src[i] == b then cont + 1 else cont)
  }

  /** The position after an item that consumes a fixed stretch of the subject, if it accepts one. */
  datatype Step = Next(s: nat) | Stuck | Raise(err: Error)

  function BalanceStep(src: seq<byte>, s: nat, b: byte, e: byte): Step {
    if At(src, s) != b then Stuck
    else match BalanceEnd(src, s + 1, b, e, 1)
      case Ends(k) => Next(k)
      case Malformed(_) => Stuck
  }

  /** Opening brackets minus closing ones from i up to j; a byte that is both closes. */
  ghost function Excess(src: seq<byte>, i: nat, j: nat, b: byte, e: byte): int
    requires i <= j <= |src|
  {
    var opening: int, closing: int := if b == e then 0 else multiset(src[i..j])[b], multiset(src[i..j])[e];
    opening - closing
  }

  /** The stretch from s up to k opens with b, closes as many brackets as it opens, and no shorter one does. */
  ghost predicate Balanced(src: seq<byte>, s: nat, k: nat, b: byte, e: byte) {
    && s < k <= |src| && src[s] == b
    && 1 + Excess(src, s + 1, k, b, e) == 0
    && forall j {:trigger Excess(src, s + 1, j, b, e)} :: s < j < k ==> 1 + Excess(src, s + 1, j, b, e) > 0
  }

  lemma ExcessFirst(src: seq<byte>, i: nat, j: nat, b: byte, e: byte)
    requires i < j <= |src|
    ensures Excess(src, i, j, b, e)
            == Excess(src, i + 1, j, b, e) + (if src[i] == e then -1 else if src[i] == b then 1 else 0)
  {
    assert src[i..j] == [src[i]] + src[i + 1..j];
  }

  /** With cont brackets open at i, the stretch ends where they have all been closed for the first time. */
  lemma {:induction false} BalanceEndMeans(src: seq<byte>, i: nat, b: byte, e: byte, cont: nat)
    requires cont > 0 && i <= |src|
    ensures var r := BalanceEnd(src, i, b, e, cont);
            && (r.Ends? ==> && i < r.at <= |src| && cont + Excess(src, i, r.at, b, e) == 0
                            && forall j {:trigger Excess(src, i, j, b, e)} ::
                                 i <= j < r.at ==> cont + Excess(src, i, j, b, e) > 0)
            && (r.Malformed? ==> forall j {:trigger Excess(src, i, j, b, e)} ::
                                   i <= j <= |src| ==> cont + Excess(src, i, j, b, e) > 0)
    decreases |src| - i
  {
    hide Excess;
    assert Excess(src, i, i, b, e) == 0 by { assert src[i..i] == []; ExcessNone(src, i, b, e); }
    if i < |src| && !(src[i] == e && cont == 1) {
      BalanceEndMeans(src, i + 1, b, e, if src[i] == e then cont - 1 else if src[i] == b then cont + 1 else cont);
    }
    if i < |src| {
      ExcessNone(src, i + 1, b, e);
      forall j | i < j <= |src|
        ensures Excess(src, i, j, b, e)
                == Excess(src, i + 1, j, b, e) + (if src[i] == e then -1 else if src[i] == b then 1 else 0)
      {
        ExcessFirst(src, i, j, b, e);
      }
    }
  }

  lemma ExcessNone(src: seq<byte>, i: nat, b: byte, e: byte)
    requires i <= |src|
    ensures Excess(src, i, i, b, e) == 0
  {
  }

  /** %bxy matches exactly the shortest balanced stretch, if there is one. */
  lemma BalanceStepMeans(src: seq<byte>, s: nat, b: byte, e: byte)
    requires s <= |src| && b != 0
    ensures forall k: nat :: BalanceStep(src, s, b, e) == Next(k) <==> Balanced(src, s, k, b, e)
    ensures BalanceStep(src, s, b, e).Next? || BalanceStep(src, s, b, e).Stuck?
  {
    hide Excess;
    if s < |src| && src[s] == b {
      BalanceEndMeans(src, s + 1, b, e, 1);
    }
  }

  function FrontierStep(src: seq<byte>, s: nat, pat: seq<byte>, brk: nat, ep: nat): Step
    requires s <= |src| && ep > 0
  {
    var previous := if s == 0 then 0 else src[s - 1];
    if SetHas(previous, pat, brk, ep - 1) || !SetHas(At(src, s), pat, brk, ep - 1) then Stuck else Next(s)
  }

  /** %f[set] matches nothing, exactly where the set lacks the byte before and has the one behind, a zero byte
      standing for those outside the subject; a caret turns this around. */
  lemma FrontierMeans(src: seq<byte>, s: nat, pat: seq<byte>, brk: nat, ep: nat, els: seq<Element>)
    requires s <= |src| && brk < ep <= |pat|
    requires var q := if At(pat, brk + 1) == 94 then brk + 2 else brk + 1;
             q <= ep - 1 && pat[q..ep - 1] == SetText(els) && Writable(els, true)
    ensures var before, behind := if s == 0 then 0 else src[s - 1], At(src, s);
            var turned := At(pat, brk + 1) == 94;
            FrontierStep(src, s, pat, brk, ep)
            == if AnyContains(els, before) == turned && AnyContains(els, behind) != turned then Next(s) else Stuck
  {
    hide AnyContains;
    hide InSet;
    var q := if At(pat, brk + 1) == 94 then brk + 2 else brk + 1;
    SetMeans(if s == 0 then 0 else src[s - 1], pat, q, ep - 1, els, true);
    SetMeans(At(src, s), pat, q, ep - 1, els, true);
  }

  function BackStep(src: seq<byte>, s: nat, caps: seq<Capture>, digit: byte): Step {
    var l := digit - 49;
    if l < 0 || l >= |caps| || caps[l].len == UNFINISHED then Raise(BadCaptureIndex)
    else
      var len, init := caps[l].len, caps[l].init;
      if len >= 0 && s + len <= |src| && init + len <= |src|
          && src[init..init + len] == src[s..s + len] then Next(s + len) else Stuck
  }

  predicate Accepts(src: seq<byte>, s: nat, pat: seq<byte>, p: nat, ep: nat) {
    s < |src| && Single(src[s], pat, p, ep)
  }

  // ---------------------------------------------------------------- meaning

  datatype Outcome = Fail | Found(end: nat, caps: seq<Capture>) | Thrown(err: Error)

  /** How often a class item may repeat. */
  predicate Allowed(q: Quant, k: nat) {
    match q
    case Optional => k <= 1
    case Plus => k >= 1
    case _ => true
  }

  /** The class accepts every character from s up to e. */
  predicate AllAccepted(src: seq<byte>, s: nat, e: nat, pat: seq<byte>, p: nat, ep: nat) {
    forall j :: s <= j < e ==> Accepts(src, j, pat, p, ep)
  }

  /** What a pattern from p on says about the subject from s on once the number of repetitions of each repeated
      item is fixed: choice holds one number for each of them. */
  function Follow(src: seq<byte>, pat: seq<byte>, s: nat, p: nat, caps: seq<Capture>, choice: seq<nat>): Outcome
    requires s <= |src|
    decreases |pat| - p
  {
    match ItemAt(pat, p)
    case Bad(e) => if choice == [] then Thrown(e) else Fail
    case Stop => if choice == [] then Found(s, caps) else Fail
    case Dollar => if choice == [] && s == |src| then Found(s, caps) else Fail
    case Open(n) =>
      if |caps| < MAXCAPTURES then Follow(src, pat, s, n, caps + [Capture(s, UNFINISHED)], choice)
      else if choice == [] then Thrown(TooManyCaptures) else Fail
    case Position(n) =>
      if |caps| < MAXCAPTURES then Follow(src, pat, s, n, caps + [Capture(s, POSITION)], choice)
      else if choice == [] then Thrown(TooManyCaptures) else Fail
    case Close(n) =>
      var l := ToClose(caps);
      if l < |caps| then Follow(src, pat, s, n, caps[l := Capture(caps[l].init, s - caps[l].init)], choice)
      else if choice == [] then Thrown(BadPatternCapture) else Fail
    case Balance(b, e, n) => FollowStep(src, pat, BalanceStep(src, s, b, e), p, n, caps, choice)
    case Frontier(brk, n) => FollowStep(src, pat, FrontierStep(src, s, pat, brk, n), p, n, caps, choice)
    case Back(d, n) => FollowStep(src, pat, BackStep(src, s, caps, d), p, n, caps, choice)
    case Once(cls, ep, n) => if Accepts(src, s, pat, cls, ep) then Follow(src, pat, s + 1, n, caps, choice) else Fail
    case Repeat(cls, ep, q, n) =>
      if choice != [] && Allowed(q, choice[0]) && s + choice[0] <= |src|
          && AllAccepted(src, s, s + choice[0], pat, cls, ep)
      then Follow(src, pat, s + choice[0], n, caps, choice[1..])
      else Fail
  }

  function FollowStep(src: seq<byte>, pat: seq<byte>, st: Step, p: nat, n: nat, caps: seq<Capture>,
                      choice: seq<nat>): Outcome
    requires p < n <= |pat|
    decreases |pat| - p, 0
  {
    match st
    case Next(s') => if s' <= |src| then Follow(src, pat, s', n, caps, choice) else Fail
    case Stuck => Fail
    case Raise(e) => if choice == [] then Thrown(e) else Fail
  }

  /** The repeated items of a pattern, in order. */
  function Kinds(pat: seq<byte>, p: nat): seq<Quant>
    decreases |pat| - p
  {
    var it := ItemAt(pat, p);
    if it.Bad? || it.Stop? || it.Dollar? then []
    else if it.Repeat? then [it.q] + Kinds(pat, it.next)
    else Kinds(pat, it.next)
  }

  /** Is k' tried before k?  Greedy items take as much as they can, lazy ones as little. */
  predicate Prefer(q: Quant, k': nat, k: nat) {
    if q == Lazy then k' < k else k' > k
  }

  /** Priority of choices: the first item at which two of them differ decides. */
  predicate Earlier(kinds: seq<Quant>, c': seq<nat>, c: seq<nat>) {
    kinds != [] && c' != [] && c != []
    && if c'[0] != c[0] then Prefer(kinds[0], c'[0], c[0]) else Earlier(kinds[1..], c'[1..], c[1..])
  }

  /** out is the outcome of the first choice that does not fail. */
  ghost predicate First(src: seq<byte>, pat: seq<byte>, s: nat, p: nat, caps: seq<Capture>, out: Outcome)
    requires s <= |src|
  {
    if out.Fail? then forall c :: Follow(src, pat, s, p, caps, c) == Fail
    else exists c :: IsFirst(src, pat, s, p, caps, out, c)
  }

  ghost predicate IsFirst(src: seq<byte>, pat: seq<byte>, s: nat, p: nat, caps: seq<Capture>, out: Outcome, c: seq<nat>)
    requires s <= |src|
  {
    Follow(src, pat, s, p, caps, c) == out
    && forall c' :: Earlier(Kinds(pat, p), c', c) ==> Follow(src, pat, s, p, caps, c') == Fail
  }

  // ---------------------------------------------------------------- the search

  /** The backtracking search: the first success or error; d is the depth of the recursion. */
  function Best(src: seq<byte>, pat: seq<byte>, s: nat, p: nat, caps: seq<Capture>, d: nat): (r: Outcome)
    requires s <= |src|
    ensures r.Found? ==> s <= r.end <= |src|
    decreases |pat| - p, 1, 0
  {
    match ItemAt(pat, p)
    case Bad(e) => Thrown(e)
    case Stop => Found(s, caps)
    case Dollar => if s == |src| then Found(s, caps) else Fail
    case Open(n) => BestOpen(src, pat, s, p, n, caps, d, UNFINISHED)
    case Position(n) => BestOpen(src, pat, s, p, n, caps, d, POSITION)
    case Close(n) =>
      var l := ToClose(caps);
      if l < |caps| then Deeper(src, pat, s, p, n, caps[l := Capture(caps[l].init, s - caps[l].init)], d)
          else Thrown(BadPatternCapture)
    case Balance(b, e, n) => BestStep(src, pat, s, BalanceStep(src, s, b, e), p, n, caps, d)
    case Frontier(brk, n) => BestStep(src, pat, s, FrontierStep(src, s, pat, brk, n), p, n, caps, d)
    case Back(g, n) => BestStep(src, pat, s, BackStep(src, s, caps, g), p, n, caps, d)
    case Once(cls, ep, n) => if Accepts(src, s, pat, cls, ep) then Best(src, pat, s + 1, n, caps, d) else Fail
    case Repeat(cls, ep, q, n) =>
      var m := Accepts(src, s, pat, cls, ep);
      match q
      case Optional =>
        var r := if m then Deeper(src, pat, s + 1, p, n, caps, d) else Fail;
        if r.Fail? then Best(src, pat, s, n, caps, d) else r
      case Star => Descend(src, pat, s, Longest(src, s, pat, cls, ep), p, n, caps, d)
      case Plus => if m then Descend(src, pat, s + 1, Longest(src, s + 1, pat, cls, ep), p, n, caps, d) else Fail
      case Lazy => Ascend(src, pat, s, p, cls, ep, n, caps, d)
  }

  /** A recursive call, unless it is nested too deeply. */
  function Deeper(src: seq<byte>, pat: seq<byte>, s: nat, p: nat, n: nat, caps: seq<Capture>, d: nat): (r: Outcome)
    requires s <= |src| && p < n <= |pat|
    ensures r.Found? ==> s <= r.end <= |src|
    decreases |pat| - p, 0, 0
  {
    if d + 1 > MAXDEPTH then Thrown(TooDeep) else Best(src, pat, s, n, caps, d + 1)
  }

  function BestOpen(src: seq<byte>, pat: seq<byte>, s: nat, p: nat, n: nat, caps: seq<Capture>, d: nat,
                    what: int): (r: Outcome)
    requires s <= |src| && p < n <= |pat|
    ensures r.Found? ==> s <= r.end <= |src|
    decreases |pat| - p, 0, 1
  {
    if |caps| >= MAXCAPTURES then Thrown(TooManyCaptures) else Deeper(src, pat, s, p, n, caps + [Capture(s, what)], d)
  }

  function BestStep(src: seq<byte>, pat: seq<byte>, s: nat, st: Step, p: nat, n: nat, caps: seq<Capture>,
                    d: nat): (r: Outcome)
    requires s <= |src| && p < n <= |pat| && (st.Next? ==> s <= st.s)
    ensures r.Found? ==> s <= r.end <= |src|
    decreases |pat| - p, 0, 0
  {
    match st
    case Next(s') => if s' <= |src| then Best(src, pat, s', n, caps, d) else Fail
    case Stuck => Fail
    case Raise(e) => Thrown(e)
  }

  /** How many characters in a row the class accepts. */
  function Longest(src: seq<byte>, s: nat, pat: seq<byte>, p: nat, ep: nat): (k: nat)
    requires s <= |src|
    ensures s + k <= |src| && AllAccepted(src, s, s + k, pat, p, ep) && !Accepts(src, s + k, pat, p, ep)
    decreases |src| - s
  {
    if Accepts(src, s, pat, p, ep) then
      Longest(src, s + 1, pat, p, ep) + 1
    else 0
  }

  /** max_expand: the longest stretch first. */
  function Descend(src: seq<byte>, pat: seq<byte>, s: nat, k: nat, p: nat, n: nat, caps: seq<Capture>,
                   d: nat): (r: Outcome)
    requires s + k <= |src| && p < n <= |pat|
    ensures r.Found? ==> s <= r.end <= |src|
    decreases |pat| - p, 0, k + 1
  {
    var r := Deeper(src, pat, s + k, p, n, caps, d);
    if !r.Fail? || k == 0 then r else Descend(src, pat, s, k - 1, p, n, caps, d)
  }

  /** min_expand: the shortest stretch first. */
  function Ascend(src: seq<byte>, pat: seq<byte>, s: nat, p: nat, cls: nat, ep: nat, n: nat, caps: seq<Capture>,
                  d: nat): (r: Outcome)
    requires s <= |src| && p < n <= |pat|
    ensures r.Found? ==> s <= r.end <= |src|
    decreases |pat| - p, 0, |src| - s + 1
  {
    var r := Deeper(src, pat, s, p, n, caps, d);
    if !r.Fail? then r
    else if Accepts(src, s, pat, cls, ep) then Ascend(src, pat, s + 1, p, cls, ep, n, caps, d)
    else Fail
  }

  // ---------------------------------------------------------------- the search finds the first outcome

  /** An item without a choice passes the outcome of the rest on. */
  lemma PassOn(src: seq<byte>, pat: seq<byte>, s: nat, p: nat, caps: seq<Capture>, s': nat, n: nat,
               caps': seq<Capture>, out: Outcome)
    requires s <= |src| && s' <= |src| && First(src, pat, s', n, caps', out)
    requires Kinds(pat, p) == Kinds(pat, n)
    requires forall c :: Follow(src, pat, s, p, caps, c) == Follow(src, pat, s', n, caps', c)
    ensures First(src, pat, s, p, caps, out)
  {
    hide Follow;
    hide Kinds;
    hide Earlier;
    if out.Fail? {
      forall c ensures Follow(src, pat, s, p, caps, c) == Fail {
        assert Follow(src, pat, s', n, caps', c) == Fail;
      }
    } else {
      var c :| IsFirst(src, pat, s', n, caps', out, c);
      assert IsFirst(src, pat, s, p, caps, out, c);
    }
  }

  /** An outcome reached without choices left. */
  lemma AtOnce(src: seq<byte>, pat: seq<byte>, s: nat, p: nat, caps: seq<Capture>, out: Outcome)
    requires s <= |src| && Follow(src, pat, s, p, caps, []) == out && !out.Fail?
    ensures First(src, pat, s, p, caps, out)
  {
    hide Follow;
    hide Kinds;
    assert IsFirst(src, pat, s, p, caps, out, []);
  }

  /** k repetitions are possible at s. */
  predicate Possible(src: seq<byte>, pat: seq<byte>, s: nat, it: Item, k: nat)
    requires it.Repeat?
  {
    Allowed(it.q, k) && s + k <= |src| && AllAccepted(src, s, s + k, pat, it.cls, it.ep)
  }

  lemma FollowRepeat(src: seq<byte>, pat: seq<byte>, s: nat, p: nat, caps: seq<Capture>, c: seq<nat>)
    requires s <= |src| && ItemAt(pat, p).Repeat?
    ensures var it := ItemAt(pat, p);
            Follow(src, pat, s, p, caps, c)
            == if c != [] && Possible(src, pat, s, it, c[0]) then Follow(src, pat, s + c[0], it.next, caps, c[1..])
                else Fail
    ensures Kinds(pat, p) == [ItemAt(pat, p).q] + Kinds(pat, ItemAt(pat, p).next)
  {
  }

  lemma RepeatFails(src: seq<byte>, pat: seq<byte>, s: nat, p: nat, caps: seq<Capture>)
    requires s <= |src| && ItemAt(pat, p).Repeat?
    requires var it := ItemAt(pat, p); forall k {:trigger Possible(src, pat, s, it, k)} ::
                                         Possible(src, pat, s, it, k) ==> First(src, pat, s + k, it.next, caps, Fail)
    ensures First(src, pat, s, p, caps, Fail)
  {
    hide Follow;
    hide ItemAt;
    forall c ensures Follow(src, pat, s, p, caps, c) == Fail {
      FollowRepeat(src, pat, s, p, caps, c);
    }
  }

  lemma RepeatFinds(src: seq<byte>, pat: seq<byte>, s: nat, p: nat, caps: seq<Capture>, out: Outcome, k: nat)
    requires s <= |src| && ItemAt(pat, p).Repeat? && !out.Fail? && Possible(src, pat, s, ItemAt(pat, p), k)
    requires First(src, pat, s + k, ItemAt(pat, p).next, caps, out)
    requires var it := ItemAt(pat, p);
             forall k' {:trigger Possible(src, pat, s, it, k')} ::
               Possible(src, pat, s, it, k') && Prefer(it.q, k', k) ==> First(src, pat, s + k', it.next, caps, Fail)
    ensures First(src, pat, s, p, caps, out)
  {
    hide Follow;
    hide ItemAt;
    hide Kinds;
    var it := ItemAt(pat, p);
    var c :| IsFirst(src, pat, s + k, it.next, caps, out, c);
    var c1 := [k] + c;
    assert c1[1..] == c;
    FollowRepeat(src, pat, s, p, caps, c1);
    var kinds := Kinds(pat, p);
    forall c' | Earlier(kinds, c', c1) ensures Follow(src, pat, s, p, caps, c') == Fail {
      FollowRepeat(src, pat, s, p, caps, c');
      assert kinds[1..] == Kinds(pat, it.next);
    }
    assert IsFirst(src, pat, s, p, caps, out, c1);
  }

  /** The search returns the outcome of the first choice that does not fail, unless it gives up for depth. */
  lemma {:induction false} BestIsFirst(src: seq<byte>, pat: seq<byte>, s: nat, p: nat, caps: seq<Capture>, d: nat)
    requires s <= |src|
    ensures Best(src, pat, s, p, caps, d) != Thrown(TooDeep)
            ==> First(src, pat, s, p, caps, Best(src, pat, s, p, caps, d))
    decreases |pat| - p, 1, 0
  {
    hide First;
    var out := Best(src, pat, s, p, caps, d);
    var it := ItemAt(pat, p);
    if out == Thrown(TooDeep) { return; }
    match it
    case Bad(e) => AtOnce(src, pat, s, p, caps, out);
    case Stop => AtOnce(src, pat, s, p, caps, out);
    case Dollar => if s == |src| { AtOnce(src, pat, s, p, caps, out); } else { NeverMatches(src, pat, s, p, caps); }
    case Open(n) => OpenIsFirst(src, pat, s, p, caps, d);
    case Position(n) => OpenIsFirst(src, pat, s, p, caps, d);
    case Close(n) =>
      var l := ToClose(caps);
      if l < |caps| {
        var caps' := caps[l := Capture(caps[l].init, s - caps[l].init)];
        assert out == Deeper(src, pat, s, p, n, caps', d);
        BestIsFirst(src, pat, s, n, caps', d + 1);
        PassOn(src, pat, s, p, caps, s, n, caps', out);
      } else {
        AtOnce(src, pat, s, p, caps, out);
      }
    case Balance(b, e, n) => StepIsFirst(src, pat, s, p, caps, d, BalanceStep(src, s, b, e));
    case Frontier(brk, n) => StepIsFirst(src, pat, s, p, caps, d, FrontierStep(src, s, pat, brk, n));
    case Back(g, n) => StepIsFirst(src, pat, s, p, caps, d, BackStep(src, s, caps, g));
    case Once(cls, ep, n) =>
      if Accepts(src, s, pat, cls, ep) {
        BestIsFirst(src, pat, s + 1, n, caps, d);
        PassOn(src, pat, s, p, caps, s + 1, n, caps, out);
      } else {
        NeverMatches(src, pat, s, p, caps);
      }
    case Repeat(cls, ep, q, n) => RepeatIsFirst(src, pat, s, p, caps, d);
  }

  lemma NeverMatches(src: seq<byte>, pat: seq<byte>, s: nat, p: nat, caps: seq<Capture>)
    requires s <= |src| && forall c :: Follow(src, pat, s, p, caps, c) == Fail
    ensures First(src, pat, s, p, caps, Fail)
  {
  }

  lemma {:induction false} OpenIsFirst(src: seq<byte>, pat: seq<byte>, s: nat, p: nat, caps: seq<Capture>, d: nat)
    requires s <= |src| && (ItemAt(pat, p).Open? || ItemAt(pat, p).Position?)
    ensures Best(src, pat, s, p, caps, d) != Thrown(TooDeep)
            ==> First(src, pat, s, p, caps, Best(src, pat, s, p, caps, d))
    decreases |pat| - p, 0, 0
  {
    hide First;
    var out := Best(src, pat, s, p, caps, d);
    var it := ItemAt(pat, p);
    if out == Thrown(TooDeep) { return; }
    assert out == BestOpen(src, pat, s, p, it.next, caps, d, if it.Open? then UNFINISHED else POSITION);
    if |caps| < MAXCAPTURES {
      var caps' := caps + [Capture(s, if it.Open? then UNFINISHED else POSITION)];
      assert out == Deeper(src, pat, s, p, it.next, caps', d);
      BestIsFirst(src, pat, s, it.next, caps', d + 1);
      PassOn(src, pat, s, p, caps, s, it.next, caps', out);
    } else {
      AtOnce(src, pat, s, p, caps, out);
    }
  }

  ghost predicate StepItem(src: seq<byte>, pat: seq<byte>, s: nat, it: Item, caps: seq<Capture>, st: Step)
    requires s <= |src| && (it.Frontier? ==> it.next > 0)
  {
    match it
    case Balance(b, e, n) => st == BalanceStep(src, s, b, e)
    case Frontier(brk, n) => st == FrontierStep(src, s, pat, brk, n)
    case Back(g, n) => st == BackStep(src, s, caps, g)
    case _ => false
  }

  lemma {:induction false} StepIsFirst(src: seq<byte>, pat: seq<byte>, s: nat, p: nat, caps: seq<Capture>, d: nat,
                                       st: Step)
    requires s <= |src| && StepItem(src, pat, s, ItemAt(pat, p), caps, st)
    ensures Best(src, pat, s, p, caps, d) != Thrown(TooDeep)
            ==> First(src, pat, s, p, caps, Best(src, pat, s, p, caps, d))
    decreases |pat| - p, 0, 0
  {
    hide First;
    var out := Best(src, pat, s, p, caps, d);
    var it := ItemAt(pat, p);
    if out == Thrown(TooDeep) { return; }
    assert out == BestStep(src, pat, s, st, p, it.next, caps, d);
    assert forall c :: Follow(src, pat, s, p, caps, c) == FollowStep(src, pat, st, p, it.next, caps, c);
    match st
    case Next(s') =>
      if s' <= |src| {
        BestIsFirst(src, pat, s', it.next, caps, d);
        PassOn(src, pat, s, p, caps, s', it.next, caps, out);
      } else {
        NeverMatches(src, pat, s, p, caps);
      }
    case Stuck => NeverMatches(src, pat, s, p, caps);
    case Raise(e) => AtOnce(src, pat, s, p, caps, out);
  }

  lemma {:induction false} RepeatIsFirst(src: seq<byte>, pat: seq<byte>, s: nat, p: nat, caps: seq<Capture>, d: nat)
    requires s <= |src| && ItemAt(pat, p).Repeat?
    ensures Best(src, pat, s, p, caps, d) != Thrown(TooDeep)
            ==> First(src, pat, s, p, caps, Best(src, pat, s, p, caps, d))
    decreases |pat| - p, 0, |src| + 3
  {
    hide First;
    hide Follow;
    var out := Best(src, pat, s, p, caps, d);
    var it := ItemAt(pat, p);
    var n, cls, ep := it.next, it.cls, it.ep;
    if out == Thrown(TooDeep) { return; }
    match it.q
    case Optional => OptionalIsFirst(src, pat, s, p, caps, d);
    case Star =>
      var k := Longest(src, s, pat, cls, ep);
      assert out == Descend(src, pat, s, k, p, n, caps, d);
      var j := DescendIsFirst(src, pat, s, k, p, n, caps, d);
      assert forall k' {:trigger Possible(src, pat, s, it, k')} ::
               Possible(src, pat, s, it, k') ==> s <= s + k' <= s + k by {
        var x: nat := s + k;
        forall k' | Possible(src, pat, s, it, k') ensures k' <= k { assert k' > k ==> Accepts(src, x, pat, cls, ep); }
      }
      if out.Fail? { RepeatFails(src, pat, s, p, caps); } else { RepeatFinds(src, pat, s, p, caps, out, j); }
    case Plus => PlusIsFirst(src, pat, s, p, caps, d);
    case Lazy =>
      assert out == Ascend(src, pat, s, p, cls, ep, n, caps, d);
      var j := AscendIsFirst(src, pat, s, p, cls, ep, n, caps, d);
      assert forall k {:trigger Possible(src, pat, s, it, k)} ::
               Possible(src, pat, s, it, k) ==> s <= s + k <= |src| && AllAccepted(src, s, s + k, pat, cls, ep);
      if out.Fail? { RepeatFails(src, pat, s, p, caps); } else { RepeatFinds(src, pat, s, p, caps, out, j); }
  }

  lemma {:induction false} OptionalIsFirst(src: seq<byte>, pat: seq<byte>, s: nat, p: nat, caps: seq<Capture>, d: nat)
    requires s <= |src| && ItemAt(pat, p).Repeat? && ItemAt(pat, p).q == Optional
    requires Best(src, pat, s, p, caps, d) != Thrown(TooDeep)
    ensures First(src, pat, s, p, caps, Best(src, pat, s, p, caps, d))
    decreases |pat| - p, 0, 0
  {
    hide First;
    hide Follow;
    var out := Best(src, pat, s, p, caps, d);
    var it := ItemAt(pat, p);
    var n, cls, ep := it.next, it.cls, it.ep;
    var m := Accepts(src, s, pat, cls, ep);
    assert forall k :: Possible(src, pat, s, it, k) <==> k == 0 || (k == 1 && m);
    if m {
      BestIsFirst(src, pat, s + 1, n, caps, d + 1);
    }
    if m && !Deeper(src, pat, s + 1, p, n, caps, d).Fail? {
      assert out == Deeper(src, pat, s + 1, p, n, caps, d);
      RepeatFinds(src, pat, s, p, caps, out, 1);
    } else {
      assert out == Best(src, pat, s, n, caps, d);
      assert m ==> Deeper(src, pat, s + 1, p, n, caps, d) == Fail;
      BestIsFirst(src, pat, s, n, caps, d);
      if out.Fail? { RepeatFails(src, pat, s, p, caps); } else { RepeatFinds(src, pat, s, p, caps, out, 0); }
    }
  }

  lemma {:induction false} PlusIsFirst(src: seq<byte>, pat: seq<byte>, s: nat, p: nat, caps: seq<Capture>, d: nat)
    requires s <= |src| && ItemAt(pat, p).Repeat? && ItemAt(pat, p).q == Plus
    requires Best(src, pat, s, p, caps, d) != Thrown(TooDeep)
    ensures First(src, pat, s, p, caps, Best(src, pat, s, p, caps, d))
    decreases |pat| - p, 0, |src| + 2
  {
    hide First;
    hide Follow;
    var out := Best(src, pat, s, p, caps, d);
    var it := ItemAt(pat, p);
    var n, cls, ep := it.next, it.cls, it.ep;
    if Accepts(src, s, pat, cls, ep) {
      var k := Longest(src, s + 1, pat, cls, ep);
      assert out == Descend(src, pat, s + 1, k, p, n, caps, d);
      var j := DescendIsFirst(src, pat, s + 1, k, p, n, caps, d);
      assert forall k' {:trigger Possible(src, pat, s, it, k')} ::
               Possible(src, pat, s, it, k') ==> s + 1 <= s + k' <= s + 1 + k by {
        var x: nat := s + 1 + k;
        forall k' | Possible(src, pat, s, it, k') ensures 1 <= k' <= k + 1 {
          assert k' > k + 1 ==> Accepts(src, x, pat, cls, ep);
        }
      }
      if out.Fail? {
        RepeatFails(src, pat, s, p, caps);
      } else {
        assert s + (j + 1) == s + 1 + j;
        RepeatFinds(src, pat, s, p, caps, out, j + 1);
      }
    } else {
      assert forall k :: Possible(src, pat, s, it, k) ==> Accepts(src, s, pat, cls, ep);
      RepeatFails(src, pat, s, p, caps);
    }
  }

  /** Among at most k repetitions, the largest number that does not fail. */
  lemma {:induction false} DescendIsFirst(src: seq<byte>, pat: seq<byte>, s: nat, k: nat, p: nat, n: nat,
                                          caps: seq<Capture>, d: nat) returns (j: nat)
    requires s + k <= |src| && p < n <= |pat|
    requires Descend(src, pat, s, k, p, n, caps, d) != Thrown(TooDeep)
    ensures var out := Descend(src, pat, s, k, p, n, caps, d);
            && j <= k
            && (out.Fail? ==> forall x :: s <= x <= s + k ==> First(src, pat, x, n, caps, Fail))
            && (!out.Fail? ==>
                  && First(src, pat, s + j, n, caps, out)
                  && forall x :: s + j < x <= s + k ==> First(src, pat, x, n, caps, Fail))
    decreases |pat| - p, 0, k + 1
  {
    hide First;
    j := k;
    BestIsFirst(src, pat, s + k, n, caps, d + 1);
    if Deeper(src, pat, s + k, p, n, caps, d).Fail? && k > 0 {
      j := DescendIsFirst(src, pat, s, k - 1, p, n, caps, d);
    }
  }

  /** Among the accepted numbers of repetitions, the smallest that does not fail. */
  lemma {:induction false} AscendIsFirst(src: seq<byte>, pat: seq<byte>, s: nat, p: nat, cls: nat, ep: nat, n: nat,
                                         caps: seq<Capture>, d: nat) returns (j: nat)
    requires s <= |src| && p < n <= |pat|
    requires Ascend(src, pat, s, p, cls, ep, n, caps, d) != Thrown(TooDeep)
    ensures var out := Ascend(src, pat, s, p, cls, ep, n, caps, d);
            && s + j <= |src| && AllAccepted(src, s, s + j, pat, cls, ep)
            && (out.Fail? ==> forall x ::
                                s <= x <= |src| && AllAccepted(src, s, x, pat, cls, ep)
                                ==> First(src, pat, x, n, caps, Fail))
            && (!out.Fail? ==>
                  && First(src, pat, s + j, n, caps, out)
                  && forall x :: s <= x < s + j ==> First(src, pat, x, n, caps, Fail))
    decreases |pat| - p, 0, |src| - s + 1
  {
    hide First;
    j := 0;
    BestIsFirst(src, pat, s, n, caps, d + 1);
    if Deeper(src, pat, s, p, n, caps, d).Fail? && Accepts(src, s, pat, cls, ep) {
      var j' := AscendIsFirst(src, pat, s + 1, p, cls, ep, n, caps, d);
      j := j' + 1;
      assert forall x ::
               s < x <= |src| && AllAccepted(src, s, x, pat, cls, ep) ==> AllAccepted(src, s + 1, x, pat, cls, ep);
    }
  }

  /** Two choices that do not fail are comparable. */
  lemma {:induction false} Comparable(src: seq<byte>, pat: seq<byte>, s: nat, p: nat, caps: seq<Capture>, c: seq<nat>,
                                      c': seq<nat>)
    requires s <= |src| && !Follow(src, pat, s, p, caps, c).Fail? && !Follow(src, pat, s, p, caps, c').Fail? && c != c'
    ensures Earlier(Kinds(pat, p), c, c') || Earlier(Kinds(pat, p), c', c)
    decreases |pat| - p, 1
  {
    var it := ItemAt(pat, p);
    match it
    case Open(n) => Comparable(src, pat, s, n, caps + [Capture(s, UNFINISHED)], c, c');
    case Position(n) => Comparable(src, pat, s, n, caps + [Capture(s, POSITION)], c, c');
    case Close(n) =>
      var l := ToClose(caps);
      Comparable(src, pat, s, n, caps[l := Capture(caps[l].init, s - caps[l].init)], c, c');
    case Balance(b, e, n) => Comparable(src, pat, BalanceStep(src, s, b, e).s, n, caps, c, c');
    case Frontier(brk, n) => Comparable(src, pat, s, n, caps, c, c');
    case Back(g, n) => Comparable(src, pat, BackStep(src, s, caps, g).s, n, caps, c, c');
    case Once(cls, ep, n) => Comparable(src, pat, s + 1, n, caps, c, c');
    case Repeat(cls, ep, q, n) => ComparableRepeat(src, pat, s, p, caps, c, c');
    case _ =>
  }

  lemma {:induction false} ComparableRepeat(src: seq<byte>, pat: seq<byte>, s: nat, p: nat, caps: seq<Capture>,
                                            c: seq<nat>, c': seq<nat>)
    requires s <= |src| && !Follow(src, pat, s, p, caps, c).Fail? && !Follow(src, pat, s, p, caps, c').Fail? && c != c'
    requires ItemAt(pat, p).Repeat?
    ensures Earlier(Kinds(pat, p), c, c') || Earlier(Kinds(pat, p), c', c)
    decreases |pat| - p, 0
  {
    FollowRepeat(src, pat, s, p, caps, c);
    FollowRepeat(src, pat, s, p, caps, c');
    hide Follow;
    hide Kinds;
    var n := ItemAt(pat, p).next;
    var kinds := Kinds(pat, p);
    assert kinds[1..] == Kinds(pat, n);
    hide ItemAt;
    if c[0] == c'[0] {
      assert c == [c[0]] + c[1..] && c' == [c'[0]] + c'[1..];
      Comparable(src, pat, s + c[0], n, caps, c[1..], c'[1..]);
    }
  }

  /** So there is one first outcome. */
  lemma FirstIsUnique(src: seq<byte>, pat: seq<byte>, s: nat, p: nat, caps: seq<Capture>, out: Outcome, out': Outcome)
    requires s <= |src| && First(src, pat, s, p, caps, out) && First(src, pat, s, p, caps, out')
    ensures out == out'
  {
    hide Follow;
    hide Kinds;
    hide Earlier;
    if !out.Fail? && !out'.Fail? {
      var c :| IsFirst(src, pat, s, p, caps, out, c);
      var c' :| IsFirst(src, pat, s, p, caps, out', c');
      if c != c' { Comparable(src, pat, s, p, caps, c, c'); }
    }
  }
}
