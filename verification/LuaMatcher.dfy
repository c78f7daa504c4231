/**
  The backtracking matcher over a mutable capture stack.
 */
module LuaMatcher {
  import opened Common
  import opened LuaPattern

  datatype Result = NoMatch | Match(end: nat) | Raised(err: Error)

  /** What a call of the matcher at a given depth comes to. */
  function Called(src: seq<byte>, pat: seq<byte>, s: nat, p: nat, caps: seq<Capture>, depth: nat): (r: Outcome)
    requires s <= |src|
    ensures r.Found? ==> s <= r.end <= |src|
  {
    if depth + 1 > MAXDEPTH then Thrown(TooDeep) else Best(src, pat, s, p, caps, depth + 1)
  }

  class MatchState {
    const src: seq<byte>
    const pat: seq<byte>
    var level: nat
    var depth: nat
    const capture: array<Capture>

    constructor (src: seq<byte>, pat: seq<byte>)
      ensures this.src == src && this.pat == pat && fresh(capture) && capture.Length == MAXCAPTURES && level == 0
              && depth == 0
    {
      this.src, this.pat, level, depth := src, pat, 0, 0;
      capture := new Capture[MAXCAPTURES](_ => Capture(0, UNFINISHED));
    }

    ghost function Caps(): seq<Capture>
      requires level <= capture.Length
      reads this, capture
    {
      capture[..level]
    }

    ghost predicate Valid(s: nat)
      reads this, capture
    {
      capture.Length == MAXCAPTURES && level <= MAXCAPTURES && s <= |src| && CapturesOk(Caps(), s)
    }

    /** The call came to out: after a failure the captures are as they were, after a success those of the match. */
    twostate predicate Agrees(r: Result, out: Outcome, s: nat)
      reads this, capture
    {
      capture.Length == MAXCAPTURES &&
      match out
      case Fail => r.NoMatch? && depth == old(depth) && level == old(level) <= MAXCAPTURES
                   && Caps() == old(capture[..level])
      case Found(e, caps) => r == Result.Match(e) && depth == old(depth) && Valid(e) && Caps() == caps && s <= e
      case Thrown(err) => r == Raised(err)
    }

    /** start_capture. */
    method StartCapture(s: nat, p: nat, n: nat, what: int) returns (r: Result)
      requires Valid(s) && p < n <= |pat| && (what == UNFINISHED || what == POSITION)
      modifies this`level, this`depth, capture
      ensures Agrees(r, BestOpen(src, pat, s, p, n, old(Caps()), old(depth), what), s)
      decreases |pat| - p, 0
    {
      if level >= MAXCAPTURES { return Raised(TooManyCaptures); }
      ghost var caps := Caps();
      capture[level] := Capture(s, what);
      level := level + 1;
      assert Caps() == caps + [Capture(s, what)];
      ghost var d := depth;
      r := DoMatch(s, n);
      assert BestOpen(src, pat, s, p, n, caps, d, what) == Called(src, pat, s, n, caps + [Capture(s, what)], d);
      if r.NoMatch? {
        level := level - 1;
        assert Caps() == (caps + [Capture(s, what)])[..|caps|] == caps;
      }
    }

    /** capture_to_close: the innermost unfinished capture. */
    method CaptureToClose() returns (l: int)
      requires level <= capture.Length
      ensures if ToClose(Caps()) < level then l == ToClose(Caps()) else l == -1
    {
      l := level - 1;
      while l >= 0 && capture[l].len != UNFINISHED
        invariant -1 <= l < level
        invariant forall i :: l < i < level ==> capture[i].len != UNFINISHED
      {
        l := l - 1;
      }
      assert forall i :: 0 <= i < level ==> Caps()[i] == capture[i];
    }

    /** end_capture. */
    method EndCapture(s: nat, p: nat, n: nat) returns (r: Result)
      requires Valid(s) && p < n <= |pat| && ItemAt(pat, p) == Close(n)
      modifies this`level, this`depth, capture
      ensures Agrees(r, Best(src, pat, s, p, old(Caps()), old(depth)), s)
      decreases |pat| - p, 0
    {
      var l := CaptureToClose();
      if l < 0 { return Raised(BadPatternCapture); }
      ghost var caps := Caps();
      ghost var d := depth;
      assert caps[l] == capture[l] && l == ToClose(caps);
      capture[l] := Capture(capture[l].init, s - capture[l].init);
      ghost var caps' := caps[l := Capture(caps[l].init, s - caps[l].init)];
      assert Caps() == caps';
      r := DoMatch(s, n);
      assert Best(src, pat, s, p, caps, d) == Deeper(src, pat, s, p, n, caps', d) == Called(src, pat, s, n, caps', d);
      if r.NoMatch? {
        assert capture[l] == Caps()[l] == caps'[l];
        capture[l] := Capture(capture[l].init, UNFINISHED);
        assert Caps() == caps'[l := Capture(caps[l].init, UNFINISHED)] == caps;
      }
    }

    /** matchbalance. */
    method MatchBalance(s: nat, b: byte, e: byte) returns (r: Step)
      requires s <= |src| && b != 0
      ensures r == BalanceStep(src, s, b, e)
      ensures forall k: nat :: r == Next(k) <==> Balanced(src, s, k, b, e)
      ensures r.Stuck? <==> forall k: nat :: !Balanced(src, s, k, b, e)
    {
      hide Balanced;
      BalanceStepMeans(src, s, b, e);
      if At(src, s) != b { return Stuck; }
      var cont := 1;
      var i := s + 1;
      while i < |src|
        invariant s < i <= |src| && cont > 0
        invariant BalanceEnd(src, s + 1, b, e, 1) == BalanceEnd(src, i, b, e, cont)
      {
        if src[i] == e {
          if cont == 1 { return Next(i + 1); }
          cont := cont - 1;
        } else if src[i] == b {
          cont := cont + 1;
        }
        i := i + 1;
      }
      return Stuck;
    }

    /** match_capture. */
    method MatchCapture(s: nat, digit: byte) returns (r: Step)
      requires Valid(s)
      ensures r == BackStep(src, s, Caps(), digit)
    {
      var l := digit - 49;
      if l < 0 || l >= level || capture[l].len == UNFINISHED { return Raise(BadCaptureIndex); }
      assert Caps()[l] == capture[l];
      var len, init := capture[l].len, capture[l].init;
      if len < 0 || |src| - s < len { return Stuck; }
      var i := 0;
      while i < len
        invariant 0 <= i <= len && src[init..init + i] == src[s..s + i]
      {
        if src[init + i] != src[s + i] {
          assert src[init..init + len][i] != src[s..s + len][i];
          return Stuck;
        }
        assert src[init..init + i + 1] == src[init..init + i] + [src[init + i]];
        assert src[s..s + i + 1] == src[s..s + i] + [src[s + i]];
        i := i + 1;
      }
      return Next(s + len);
    }

    /** max_expand: as many repetitions as possible, then fewer. */
    method MaxExpand(s: nat, p: nat, cls: nat, ep: nat, n: nat) returns (r: Result)
      requires Valid(s) && p < n <= |pat|
      modifies this`level, this`depth, capture
      ensures Agrees(r, Descend(src, pat, s, Longest(src, s, pat, cls, ep), p, n, old(Caps()), old(depth)), s)
      decreases |pat| - p, 0
    {
      var i := 0;
      while s + i < |src| && Single(src[s + i], pat, cls, ep)
        invariant 0 <= i && s + i <= |src| && Longest(src, s, pat, cls, ep) == i + Longest(src, s + i, pat, cls, ep)
        decreases |src| - i
      {
        i := i + 1;
      }
      ghost var caps, d, k := Caps(), depth, i;
      while i >= 0
        invariant -1 <= i <= k && s + k <= |src|
        invariant i >= 0 ==> Descend(src, pat, s, k, p, n, caps, d) == Descend(src, pat, s, i, p, n, caps, d)
        invariant i < 0 ==> Descend(src, pat, s, k, p, n, caps, d) == Fail
        invariant depth == d && level == |caps| && Valid(s) && Caps() == caps
      {
        CapturesLater(caps, s, s + i);
        r := DoMatch(s + i, n);
        assert Called(src, pat, s + i, n, caps, d) == Deeper(src, pat, s + i, p, n, caps, d);
        if !r.NoMatch? { return; }
        i := i - 1;
      }
      return NoMatch;
    }

    /** min_expand: as few repetitions as possible, then more. */
    method MinExpand(s0: nat, p: nat, cls: nat, ep: nat, n: nat) returns (r: Result)
      requires Valid(s0) && p < n <= |pat|
      modifies this`level, this`depth, capture
      ensures Agrees(r, Ascend(src, pat, s0, p, cls, ep, n, old(Caps()), old(depth)), s0)
      decreases |pat| - p, 0
    {
      var s := s0;
      ghost var caps, d := Caps(), depth;
      while true
        invariant s0 <= s <= |src|
        invariant Ascend(src, pat, s0, p, cls, ep, n, caps, d) == Ascend(src, pat, s, p, cls, ep, n, caps, d)
        invariant depth == d && level == |caps| && Valid(s0) && Caps() == caps
        decreases |src| - s
      {
        CapturesLater(caps, s0, s);
        r := DoMatch(s, n);
        assert Called(src, pat, s, n, caps, d) == Deeper(src, pat, s, p, n, caps, d);
        if !r.NoMatch? { return; }
        if !(s < |src| && Single(src[s], pat, cls, ep)) { return NoMatch; }
        s := s + 1;
      }
    }

    /** The items that consume a fixed stretch of the subject. */
    method FixedItem(s: nat, it: Item) returns (st: Step)
      requires Valid(s) && IsFixed(it) && (it.Balance? ==> it.b != 0) && (it.Frontier? ==> it.next > 0)
      ensures st == StepOf(src, pat, s, it, Caps())
    {
      match it
      case Balance(b, e, n) => st := MatchBalance(s, b, e);
      case Frontier(brk, n) =>
        var previous := if s == 0 then 0 else src[s - 1];
        st := if SetHas(previous, pat, brk, n - 1) || !SetHas(At(src, s), pat, brk, n - 1) then Stuck else Next(s);
      case Back(g, n) => st := MatchCapture(s, g);
      case Once(cls, ep, n) => st := if s < |src| && Single(src[s], pat, cls, ep) then Next(s + 1) else Stuck;
    }

    /** The items that call the matcher for the rest of the pattern. */
    method Branch(s: nat, p: nat, it: Item) returns (r: Result)
      requires Valid(s) && it == ItemAt(pat, p) && IsBranch(it)
      modifies this`level, this`depth, capture
      ensures Agrees(r, Best(src, pat, s, p, old(Caps()), old(depth)), s)
      decreases |pat| - p, 1
    {
      match it
      case Open(n) => r := StartCapture(s, p, n, UNFINISHED);
      case Position(n) => r := StartCapture(s, p, n, POSITION);
      case Close(n) => r := EndCapture(s, p, n);
      case Repeat(cls, ep, q, n) =>
        if q == Star {
          r := MaxExpand(s, p, cls, ep, n);
        } else if q == Lazy {
          r := MinExpand(s, p, cls, ep, n);
        } else if s < |src| && Single(src[s], pat, cls, ep) {
          CapturesLater(Caps(), s, s + 1);
          r := MaxExpand(s + 1, p, cls, ep, n);
        } else {
          r := NoMatch;
        }
    }

    /** match: the rest of the pattern from p0 on against the subject from s0 on. */
    method DoMatch(s0: nat, p0: nat) returns (r: Result)
      requires Valid(s0)
      modifies this`level, this`depth, capture
      ensures Agrees(r, Called(src, pat, s0, p0, old(Caps()), old(depth)), s0)
      decreases |pat| - p0, 2
    {
      hide Best;
      hide ItemAt;
      depth := depth + 1;
      if depth > MAXDEPTH { return Raised(TooDeep); }
      ghost var caps, d := Caps(), depth;
      var s, p := s0, p0;
      while true
        invariant s0 <= s <= |src| && p0 <= p
        invariant Best(src, pat, s0, p0, caps, d) == Best(src, pat, s, p, caps, d)
        invariant depth == d && level == |caps| && Valid(s) && Caps() == caps
        decreases |pat| - p
      {
        var it := ItemAt(pat, p);
        EndsAtOnce(src, pat, s, p, caps, d);
        if it.Bad? { return Raised(it.err); }
        if it.Stop? { r := Result.Match(s); break; }
        if it.Dollar? { r := if s == |src| then Result.Match(s) else NoMatch; break; }
        if IsFixed(it) {
          var st := FixedItem(s, it);
          FixedIsBest(src, pat, s, p, caps, d);
          if st.Raise? { return Raised(st.err); }
          if st.Stuck? { r := NoMatch; break; }
          CapturesLater(caps, s, st.s);
          s, p := st.s, it.next;
        } else if IsBranch(it) {
          r := Branch(s, p, it);
          if r.Raised? { return; }
          break;
        } else {
          OptionalIsBest(src, pat, s, p, caps, d);
          if s < |src| && Single(src[s], pat, it.cls, it.ep) {
            CapturesLater(caps, s, s + 1);
            r := DoMatch(s + 1, it.next);
            if r.Raised? { return; }
            if !r.NoMatch? { break; }
          }
          p := it.next;
        }
      }
      depth := depth - 1;
    }
  }

  /** Unless it throws, a call finds a match exactly if some choice of repetitions gives one, and then the one that
      priority selects. */
  lemma CallMeans(src: seq<byte>, pat: seq<byte>, s: nat, p: nat, caps: seq<Capture>, depth: nat)
    requires s <= |src| && !Called(src, pat, s, p, caps, depth).Thrown?
    ensures var out := Called(src, pat, s, p, caps, depth);
            && First(src, pat, s, p, caps, out)
            && (out.Found? <==> exists c :: Follow(src, pat, s, p, caps, c).Found?)
  {
    hide Best;
    hide Follow;
    var out := Called(src, pat, s, p, caps, depth);
    BestIsFirst(src, pat, s, p, caps, depth + 1);
    if out.Found? {
      var c :| IsFirst(src, pat, s, p, caps, out, c);
      assert Follow(src, pat, s, p, caps, c).Found?;
    }
  }

  predicate IsFixed(it: Item) {
    it.Balance? || it.Frontier? || it.Back? || it.Once?
  }

  predicate IsBranch(it: Item) {
    it.Open? || it.Position? || it.Close? || (it.Repeat? && it.q != Optional)
  }

  /** How far a fixed item reaches. */
  function StepOf(src: seq<byte>, pat: seq<byte>, s: nat, it: Item, caps: seq<Capture>): Step
    requires s <= |src| && IsFixed(it) && (it.Frontier? ==> it.next > 0)
  {
    match it
    case Balance(b, e, n) => BalanceStep(src, s, b, e)
    case Frontier(brk, n) => FrontierStep(src, s, pat, brk, n)
    case Back(g, n) => BackStep(src, s, caps, g)
    case Once(cls, ep, n) => if Accepts(src, s, pat, cls, ep) then Next(s + 1) else Stuck
  }

  lemma EndsAtOnce(src: seq<byte>, pat: seq<byte>, s: nat, p: nat, caps: seq<Capture>, d: nat)
    requires s <= |src|
    ensures var it, out := ItemAt(pat, p), Best(src, pat, s, p, caps, d);
            && (it.Bad? ==> out == Thrown(it.err))
            && (it.Stop? ==> out == Found(s, caps))
            && (it.Dollar? ==> out == if s == |src| then Found(s, caps) else Fail)
            && (it.Balance? ==> it.b != 0)
            && (!it.Bad? && !it.Stop? && !it.Dollar? ==> p < it.next <= |pat|)
  {
  }

  lemma FixedIsBest(src: seq<byte>, pat: seq<byte>, s: nat, p: nat, caps: seq<Capture>, d: nat)
    requires s <= |src| && IsFixed(ItemAt(pat, p))
    ensures var it, out := ItemAt(pat, p), Best(src, pat, s, p, caps, d);
            var st := StepOf(src, pat, s, it, caps);
            && (st.Stuck? ==> out == Fail)
            && (st.Raise? ==> out == Thrown(st.err))
            && (st.Next? ==> s <= st.s <= |src| && out == Best(src, pat, st.s, it.next, caps, d))
  {
  }

  lemma OptionalIsBest(src: seq<byte>, pat: seq<byte>, s: nat, p: nat, caps: seq<Capture>, d: nat)
    requires s <= |src| && ItemAt(pat, p).Repeat? && ItemAt(pat, p).q == Optional
    ensures var it, out := ItemAt(pat, p), Best(src, pat, s, p, caps, d);
            out == if Accepts(src, s, pat, it.cls, it.ep) && !Called(src, pat, s + 1, it.next, caps, d).Fail?
                   then Called(src, pat, s + 1, it.next, caps, d) else Best(src, pat, s, it.next, caps, d)
  {
    var it := ItemAt(pat, p);
    if Accepts(src, s, pat, it.cls, it.ep) {
      assert Called(src, pat, s + 1, it.next, caps, d) == Deeper(src, pat, s + 1, p, it.next, caps, d);
    }
  }

  lemma CapturesLater(caps: seq<Capture>, s: nat, s': nat)
    requires CapturesOk(caps, s) && s <= s'
    ensures CapturesOk(caps, s')
  {
  }
}
