/**
  string.find and string.gsub: plain search, search by pattern, and
  substitution with a replacement string.
 */
module LuaSearch {
  import opened Common
  import opened LuaPattern
  import opened LuaMatcher

  // ---------------------------------------------------------------- plain search

  /** t occurs in s at i. */
  predicate Occurs(s: seq<byte>, t: seq<byte>, i: nat) {
    i + |t| <= |s| && s[i..i + |t|] == t
  }

  /** memchr: the first c among the n bytes from position i on. */
  method MemChr(s: seq<byte>, i: nat, n: nat, c: byte) returns (r: Option<nat>)
    requires i + n <= |s|
    ensures r.None? ==> forall j :: i <= j < i + n ==> s[j] != c
    ensures r.Some? ==> i <= r.value < i + n && s[r.value] == c && forall j :: i <= j < r.value ==> s[j] != c
  {
    var j := i;
    while j < i + n
      invariant i <= j <= i + n && forall k :: i <= k < j ==> s[k] != c
    {
      if s[j] == c { return Some(j); }
      j := j + 1;
    }
    return None;
  }

  /** lmemfind: the first occurrence, found by looking for its first byte. */
  method MemFind(s: seq<byte>, t: seq<byte>) returns (r: Option<nat>)
    ensures r.None? ==> forall i :: !Occurs(s, t, i)
    ensures r.Some? ==> Occurs(s, t, r.value) && forall i :: 0 <= i < r.value ==> !Occurs(s, t, i)
  {
    if |t| == 0 { return Some(0); }
    if |t| > |s| { return None; }
    var l2 := |t| - 1;
    var l1 := |s| - l2;
    var at := 0;
    while l1 > 0
      invariant at + l1 == |s| - l2 && l1 >= 0
      invariant forall i :: 0 <= i < at ==> !Occurs(s, t, i)
    {
      var init := MemChr(s, at, l1, t[0]);
      if init.None? {
        forall i ensures !Occurs(s, t, i) { NoFirstByte(s, t, i); }
        return None;
      }
      var k := init.value;
      forall i | 0 <= i < k ensures !Occurs(s, t, i) { NoFirstByte(s, t, i); }
      if s[k + 1..k + 1 + l2] == t[1..] {
        assert s[k..k + |t|] == [s[k]] + s[k + 1..k + 1 + l2];
        return Some(k);
      }
      assert !Occurs(s, t, k) by { assert s[k..k + |t|][1..] == s[k + 1..k + 1 + l2]; }
      l1 := l1 - (k + 1 - at);
      at := k + 1;
    }
    return None;
  }

  lemma NoFirstByte(s: seq<byte>, t: seq<byte>, i: nat)
    requires |t| > 0
    ensures Occurs(s, t, i) ==> i + |t| <= |s| && s[i] == t[0]
  {
    if Occurs(s, t, i) { assert s[i..i + |t|][0] == s[i]; }
  }

  // ---------------------------------------------------------------- search by pattern

  /** What a capture is pushed as: a piece of the subject, or a position. */
  datatype Value = Str(bytes: seq<byte>) | Num(n: nat)

  datatype Answer = Absent | Present(start: nat, end: nat, values: seq<Value>) | Error(err: LuaPattern.Error)
      | Unfinished

  /** push_onecapture: None for a capture that has not been closed. */
  function CaptureValue(src: seq<byte>, c: Capture): Option<Value>
    requires c.len >= POSITION && c.init + c.len <= |src|
  {
    if c.len == UNFINISHED then None
    else if c.len == POSITION then Some(Num(c.init + 1))
    else Some(Str(src[c.init..c.init + c.len]))
  }

  /** The values of a match from s to e are pushed: those of the captures or, when there is none and the
      caller asks for it, the whole match. */
  ghost predicate Pushes(src: seq<byte>, s: nat, e: nat, caps: seq<Capture>, find: bool, values: seq<Value>)
    requires s <= e <= |src| && CapturesOk(caps, e)
  {
    if caps == [] then values == if find then [] else [Str(src[s..e])]
    else |values| == |caps| && forall i :: 0 <= i < |caps| ==> CaptureValue(src, caps[i]) == Some(values[i])
  }

  /** push_captures. */
  method PushCaptures(src: seq<byte>, s: nat, e: nat, caps: seq<Capture>, find: bool) returns (r: Option<seq<Value>>)
    requires s <= e <= |src| && CapturesOk(caps, e)
    ensures r.None? <==> exists i :: 0 <= i < |caps| && caps[i].len == UNFINISHED
    ensures r.Some? ==> Pushes(src, s, e, caps, find, r.value)
  {
    if |caps| == 0 { return Some(if find then [] else [Str(src[s..e])]); }
    var values := [];
    for i := 0 to |caps|
      invariant |values| == i && forall j :: 0 <= j < i ==> CaptureValue(src, caps[j]) == Some(values[j])
    {
      var v := CaptureValue(src, caps[i]);
      if v.None? { return None; }
      values := values + [v.value];
    }
    return Some(values);
  }

  /** What the matcher says about a start position. */
  function AtStart(src: seq<byte>, pat: seq<byte>, p: nat, s: nat): (r: Outcome)
    requires s <= |src|
    ensures r.Found? ==> s <= r.end <= |src|
  {
    Called(src, pat, s, p, [], 0)
  }

  /** The start at s fails. */
  ghost predicate FailsAt(src: seq<byte>, pat: seq<byte>, p: nat, s: nat) {
    s <= |src| ==> AtStart(src, pat, p, s).Fail?
  }

  /** A leading ^ ties the pattern to the first start. */
  function Body(pat: seq<byte>): nat {
    if At(pat, 0) == 94 then 1 else 0
  }

  function LastStart(src: seq<byte>, pat: seq<byte>, init: nat): nat {
    if At(pat, 0) == 94 then init else |src|
  }

  /** start is the leftmost start from init on that does not fail. */
  ghost predicate Leftmost(src: seq<byte>, pat: seq<byte>, init: nat, start: nat, out: Outcome) {
    && init <= start <= LastStart(src, pat, init) && start <= |src| && AtStart(src, pat, Body(pat), start) == out
    && forall s: nat :: init <= s < start ==> FailsAt(src, pat, Body(pat), s)
  }

  /** start is the leftmost start that does not fail, and the match from there to end makes these captures. */
  ghost predicate Matches(src: seq<byte>, pat: seq<byte>, init: nat, start: nat, end: nat, caps: seq<Capture>) {
    start <= end <= |src| && CapturesOk(caps, end) && Leftmost(src, pat, init, start, Found(end, caps))
  }

  ghost predicate Pending(caps: seq<Capture>) {
    exists i :: 0 <= i < |caps| && caps[i].len == UNFINISHED
  }

  /** The answer of a search by pattern from init on: the leftmost start that does not fail decides; a match
      that leaves a capture open is an error. */
  ghost predicate PatternAnswer(src: seq<byte>, pat: seq<byte>, init: nat, find: bool, r: Answer) {
    init <= |src| &&
    match r
    case Absent => forall s: nat :: init <= s <= LastStart(src, pat, init) ==> FailsAt(src, pat, Body(pat), s)
    case Present(start, end, values) =>
      exists caps :: Matches(src, pat, init, start, end, caps) && Pushes(src, start, end, caps, find, values)
    case Error(e) => exists start :: Leftmost(src, pat, init, start, Thrown(e))
    case Unfinished => exists start, end, caps :: Matches(src, pat, init, start, end, caps) && Pending(caps)
  }

  /** The search loop of str_find_aux; string.match does not set `find`. */
  method FindPattern(src: seq<byte>, pat: seq<byte>, init: nat, find: bool) returns (r: Answer)
    requires init <= |src|
    ensures PatternAnswer(src, pat, init, find, r)
  {
    var anchor := At(pat, 0) == 94;
    var p := Body(pat);
    var ms := new MatchState(src, pat);
    var s := init;
    while true
      invariant init <= s <= (if anchor then init else |src|)
      invariant fresh(ms) && fresh(ms.capture) && ms.src == src && ms.pat == pat && ms.capture.Length == MAXCAPTURES
      invariant forall i: nat :: init <= i < s ==> FailsAt(src, pat, p, i)
      decreases |src| - s
    {
      ms.level, ms.depth := 0, 0;
      assert ms.Caps() == [];
      var m := ms.DoMatch(s, p);
      if m.Raised? { assert Leftmost(src, pat, init, s, Thrown(m.err)); return Error(m.err); }
      if m.Match? {
        var caps := ms.capture[..ms.level];
        assert Matches(src, pat, init, s, m.end, caps);
        var values := PushCaptures(src, s, m.end, caps, find);
        if values.None? { assert Pending(caps); return Unfinished; }
        return Present(s, m.end, values.value);
      }
      assert FailsAt(src, pat, p, s);
      if s >= |src| || anchor { return Absent; }
      s := s + 1;
    }
  }

  /** A leading ^ is no part of the pattern, and only the start position itself counts. */
  lemma AnchorTies(src: seq<byte>, pat: seq<byte>, init: nat, find: bool, r: Answer)
    requires At(pat, 0) == 94 && init <= |src| && PatternAnswer(src, pat, init, find, r)
    ensures r.Absent? <==> AtStart(src, pat, 1, init).Fail?
    ensures r.Present?
            ==> r.start == init && AtStart(src, pat, 1, init).Found? && AtStart(src, pat, 1, init).end == r.end
    ensures r.Error? ==> AtStart(src, pat, 1, init) == Thrown(r.err)
  {
    hide AtStart;
    assert Body(pat) == 1 && LastStart(src, pat, init) == init;
    if r.Absent? { assert FailsAt(src, pat, Body(pat), init); }
    if r.Unfinished? {
      var start, end, caps :| Matches(src, pat, init, start, end, caps) && Pending(caps);
      assert Leftmost(src, pat, init, start, Found(end, caps));
    }
    if r.Present? {
      var caps :| Matches(src, pat, init, r.start, r.end, caps);
      assert Leftmost(src, pat, init, r.start, Found(r.end, caps));
    }
    if r.Error? {
      var start :| Leftmost(src, pat, init, start, Thrown(r.err));
      assert start == init;
    }
  }

  /** Without it every start position from the first one on counts. */
  lemma FreeSearch(src: seq<byte>, pat: seq<byte>, init: nat, find: bool, r: Answer, s: nat)
    requires At(pat, 0) != 94 && init <= s <= |src| && PatternAnswer(src, pat, init, find, r)
    requires !AtStart(src, pat, 0, s).Fail?
    ensures !r.Absent? && (r.Present? ==> init <= r.start <= s)
  {
    hide AtStart;
    assert r.Absent? ==> FailsAt(src, pat, Body(pat), s);
    if r.Present? {
      assert s < r.start ==> FailsAt(src, pat, Body(pat), s);
      var caps :| Matches(src, pat, init, r.start, r.end, caps);
      assert Leftmost(src, pat, init, r.start, Found(r.end, caps));
    }
  }

  /** The characters that make find use the matcher. */
  predicate IsSpecial(c: byte) {
    c in {94, 36, 42, 43, 63, 46, 40, 91, 37, 45}
  }

  /** strpbrk(p, SPECIALS) == NULL: none of them before the terminating zero. */
  predicate NoSpecials(pat: seq<byte>, i: nat)
    decreases |pat| - i
  {
    At(pat, i) == 0 || (!IsSpecial(At(pat, i)) && NoSpecials(pat, i + 1))
  }

  /** The answer of a plain search from init on. */
  ghost predicate PlainAnswer(src: seq<byte>, pat: seq<byte>, init: nat, r: Answer) {
    init <= |src| &&
    match r
    case Absent => forall s: nat :: s >= init ==> !Occurs(src, pat, s)
    case Present(start, end, values) =>
      && init <= start && Occurs(src, pat, start) && end == start + |pat| && values == []
      && forall s: nat :: init <= s < start ==> !Occurs(src, pat, s)
    case Error(e) => false
    case Unfinished => false
  }

  method FindPlain(src: seq<byte>, pat: seq<byte>, init: nat) returns (r: Answer)
    requires init <= |src|
    ensures PlainAnswer(src, pat, init, r)
  {
    var k := MemFind(src[init..], pat);
    forall s: nat | s >= init ensures Occurs(src, pat, s) == Occurs(src[init..], pat, s - init) {
      if s + |pat| <= |src| { assert src[init..][s - init..s - init + |pat|] == src[s..s + |pat|]; }
    }
    if k.Some? {
      return Present(init + k.value, init + k.value + |pat|, []);
    }
    return Absent;
  }

  /** posrelat, and the start position of str_find_aux. */
  function StartAt(pos: int, len: nat): (init: nat)
    ensures init <= len
    ensures pos > 0 ==> init == if pos - 1 < len then pos - 1 else len
    ensures pos < 0 ==> len - init == if -pos < len then -pos else len
    ensures pos == 0 ==> init == 0
  {
    var rel := if pos < 0 then pos + len + 1 else pos;
    var init := (if rel >= 0 then rel else 0) - 1;
    if init < 0 then 0 else if init > len then len else init
  }

  /** string.find. */
  method Find(src: seq<byte>, pat: seq<byte>, pos: int, plain: bool) returns (r: Answer)
    ensures plain || NoSpecials(pat, 0) ==> PlainAnswer(src, pat, StartAt(pos, |src|), r)
    ensures !plain && !NoSpecials(pat, 0) ==> PatternAnswer(src, pat, StartAt(pos, |src|), true, r)
  {
    var init := StartAt(pos, |src|);
    if plain || NoSpecials(pat, 0) {
      r := FindPlain(src, pat, init);
    } else {
      r := FindPattern(src, pat, init, true);
    }
  }

  /** string.match. */
  method MatchFrom(src: seq<byte>, pat: seq<byte>, pos: int) returns (r: Answer)
    ensures PatternAnswer(src, pat, StartAt(pos, |src|), false, r)
  {
    r := FindPattern(src, pat, StartAt(pos, |src|), false);
  }

  // ---------------------------------------------------------------- plain patterns

  /** A pattern of ordinary characters only. */
  predicate Ordinary(pat: seq<byte>) {
    forall i :: 0 <= i < |pat| ==> pat[i] != 0 && pat[i] != 41 && !IsSpecial(pat[i])
  }

  lemma OrdinaryItem(pat: seq<byte>, k: nat)
    requires Ordinary(pat) && k < |pat|
    ensures ItemAt(pat, k) == Once(k, k + 1, k + 1)
  {
    assert At(pat, k) == pat[k] && !IsSpecial(pat[k]);
    assert k + 1 < |pat| ==> !IsSpecial(pat[k + 1]);
  }

  /** The matcher compares ordinary characters one by one. */
  lemma {:induction false} OrdinaryMatch(src: seq<byte>, pat: seq<byte>, s: nat, k: nat, caps: seq<Capture>, d: nat)
    requires Ordinary(pat) && s <= |src| && k <= |pat|
    ensures Best(src, pat, s, k, caps, d) == if Occurs(src, pat[k..], s) then Found(s + |pat| - k, caps) else Fail
    decreases |pat| - k
  {
    hide ClassItem;
    if k == |pat| {
      assert ItemAt(pat, k) == Stop;
      assert src[s..s + 0] == pat[k..];
    } else {
      OrdinaryItem(pat, k);
      if Accepts(src, s, pat, k, k + 1) {
        OrdinaryMatch(src, pat, s + 1, k + 1, caps, d);
        var n := |pat| - k;
        if s + n <= |src| {
          assert src[s..s + n] == [src[s]] + src[s + 1..s + 1 + (n - 1)];
          assert pat[k..] == [pat[k]] + pat[k + 1..];
        }
      } else if Occurs(src, pat[k..], s) {
        NoFirstByte(src, pat[k..], s);
        assert false;
      }
    }
  }

  /** For ordinary patterns the two ways of searching agree on every subject and start. */
  lemma PlainIsPattern(src: seq<byte>, pat: seq<byte>, init: nat, r: Answer)
    requires Ordinary(pat)
    ensures PlainAnswer(src, pat, init, r) <==> PatternAnswer(src, pat, init, true, r)
  {
    hide Best;
    hide ItemAt;
    assert At(pat, 0) != 94 by { assert |pat| > 0 ==> !IsSpecial(pat[0]); }
    assert pat[0..] == pat;
    forall s: nat | s <= |src|
      ensures AtStart(src, pat, 0, s) == if Occurs(src, pat, s) then Found(s + |pat|, []) else Fail
    {
      OrdinaryMatch(src, pat, s, 0, [], 1);
    }
    hide AtStart;
    assert forall s: nat :: FailsAt(src, pat, 0, s) <==> !Occurs(src, pat, s);
    assert forall s: nat :: Occurs(src, pat, s) ==> s <= |src|;
    assert Body(pat) == 0 && LastStart(src, pat, init) == |src|;
    if r.Present? && PlainAnswer(src, pat, init, r) {
      assert Matches(src, pat, init, r.start, r.end, []);
    }
  }

  /** The two ways of searching agree on every subject and start. */
  ghost predicate SearchesAgree(pat: seq<byte>) {
    forall src, init: nat, r :: PlainAnswer(src, pat, init, r) <==> PatternAnswer(src, pat, init, true, r)
  }

  /** The first k characters are ordinary. */
  predicate OrdinaryUpTo(pat: seq<byte>, k: nat) {
    k <= |pat| && Ordinary(pat[..k])
  }

  /** A pattern that find searches for as it is, but that holds a zero or a closing parenthesis: the first of them. */
  lemma {:induction false} FirstOdd(pat: seq<byte>, i: nat) returns (k: nat)
    requires OrdinaryUpTo(pat, i) && NoSpecials(pat, i) && !Ordinary(pat)
    ensures OrdinaryUpTo(pat, k) && k < |pat| && (pat[k] == 0 || pat[k] == 41)
    decreases |pat| - i
  {
    assert pat[..|pat|] == pat;
    if pat[i] == 0 || pat[i] == 41 {
      k := i;
    } else {
      assert pat[..i + 1] == pat[..i] + [pat[i]];
      k := FirstOdd(pat, i + 1);
    }
  }

  /** The matcher takes an ordinary beginning of the pattern in its stride. */
  lemma {:induction false} OrdinaryStart(src: seq<byte>, pat: seq<byte>, k: nat, n: nat, d: nat)
    requires OrdinaryUpTo(pat, n) && n < |pat| && (pat[n] == 0 || pat[n] == 41) && k <= n <= |src|
             && src[..n] == pat[..n]
    ensures Best(src, pat, k, k, [], d) == Best(src, pat, n, n, [], d)
    decreases n - k
  {
    if k < n {
      assert pat[..n][k] == pat[k] == src[..n][k];
      assert k + 1 < n ==> pat[..n][k + 1] == pat[k + 1];
      assert ItemAt(pat, k) == Once(k, k + 1, k + 1);
      OrdinaryStart(src, pat, k + 1, n, d);
    }
  }

  /** A closing parenthesis is no special character for find, but not an ordinary one for the matcher. */
  lemma ParenthesisDiffers(pat: seq<byte>, k: nat)
    requires OrdinaryUpTo(pat, k) && k < |pat| && pat[k] == 41
    ensures PlainAnswer(pat, pat, 0, Present(0, |pat|, []))
            && PatternAnswer(pat, pat, 0, true, Error(BadPatternCapture))
    ensures !PatternAnswer(pat, pat, 0, true, Present(0, |pat|, []))
  {
    OrdinaryStart(pat, pat, 0, k, 1);
    assert k > 0 ==> pat[..k][0] == pat[0];
    assert At(pat, 0) != 94;
    assert ItemAt(pat, k) == Close(k + 1);
    assert AtStart(pat, pat, 0, 0) == Thrown(BadPatternCapture);
    hide AtStart;
    assert Leftmost(pat, pat, 0, 0, Thrown(BadPatternCapture));
    assert Occurs(pat, pat, 0);
  }

  /** A zero byte ends the pattern for the matcher, but not for the plain search. */
  lemma ZeroDiffers(pat: seq<byte>, k: nat)
    requires OrdinaryUpTo(pat, k) && k < |pat| && pat[k] == 0
    ensures PlainAnswer(pat[..k], pat, 0, Absent) && PatternAnswer(pat[..k], pat, 0, true, Present(0, k, []))
    ensures !PatternAnswer(pat[..k], pat, 0, true, Absent)
  {
    var src := pat[..k];
    OrdinaryStart(src, pat, 0, k, 1);
    assert k > 0 ==> pat[..k][0] == pat[0];
    assert At(pat, 0) != 94;
    assert ItemAt(pat, k) == Stop;
    assert AtStart(src, pat, 0, 0) == Found(k, []);
    hide AtStart;
    assert Matches(src, pat, 0, 0, k, []);
    assert !FailsAt(src, pat, 0, 0);
  }

  /** A pattern without special characters means the same to both searches just when it holds neither a
      closing parenthesis nor a zero byte. */
  lemma PlainIsPatternExactly(pat: seq<byte>)
    requires NoSpecials(pat, 0)
    ensures Ordinary(pat) <==> SearchesAgree(pat)
    ensures Ordinary(pat) <==> forall i :: 0 <= i < |pat| ==> pat[i] != 0 && pat[i] != 41
  {
    hide PlainAnswer;
    hide PatternAnswer;
    if Ordinary(pat) {
      forall src, init: nat, r ensures PlainAnswer(src, pat, init, r) <==> PatternAnswer(src, pat, init, true, r) {
        PlainIsPattern(src, pat, init, r);
      }
    } else {
      var k := FirstOdd(pat, 0);
      if pat[k] == 41 { ParenthesisDiffers(pat, k); } else { ZeroDiffers(pat, k); }
    }
  }

  /** A capture that is never closed: the matcher finds it, and pushing it is an error. */
  lemma OpenCaptureRaises()
    ensures PatternAnswer([], [40], 0, true, Unfinished)
  {
    var pat: seq<byte> := [40];
    assert At(pat, 1) == 0 && ItemAt(pat, 0) == Open(1) && ItemAt(pat, 1) == Stop;
    assert AtStart([], pat, 0, 0) == Found(0, [Capture(0, UNFINISHED)]);
    var caps := [Capture(0, UNFINISHED)];
    assert caps[0].len == UNFINISHED;
    assert Matches([], pat, 0, 0, 0, caps) && Pending(caps);
  }
}
