/**
  string.gsub with a replacement string, function or table.
 */
module LuaGsub {
  import opened Common
  import opened LuaPattern
  import opened LuaMatcher
  import opened LuaSearch

  datatype Failure = Pattern(err: LuaPattern.Error) | NoSuchCapture | UnfinishedCapture | BadReplacement

  /** What a replacement function or table gives: nil or false, a string or number, or something else. */
  datatype Reply = Falsy | Gives(bytes: seq<byte>) | Other

  /** A function may answer each call differently; it is asked with the number of substitutions made before. */
  datatype Replacement = Template(news: seq<byte>) | Calls(f: (nat, seq<Value>) -> Reply) | Looks(t: Value -> Reply)

  datatype Text = Text(bytes: seq<byte>) | NoText(why: Failure)
  datatype Substituted = Done(bytes: seq<byte>, count: nat) | Failed(why: Failure)

  /** A number in decimal. */
  function Decimal(n: nat): seq<byte> {
    (if n < 10 then [] else Decimal(n / 10)) + [(48 + n % 10) as byte]
  }

  /** push_onecapture: the text of capture i of a match from s to e. */
  function CaptureText(src: seq<byte>, caps: seq<Capture>, s: nat, e: nat, i: nat): Text
    requires s <= e <= |src|
  {
    if i >= |caps| then (if i == 0 then Text(src[s..e]) else NoText(NoSuchCapture))
    else if caps[i].len == UNFINISHED then NoText(UnfinishedCapture)
    else if caps[i].len == POSITION then Text(Decimal(caps[i].init + 1))
    else if caps[i].len >= 0 && caps[i].init + caps[i].len <= |src|
    then Text(src[caps[i].init..caps[i].init + caps[i].len])
    else NoText(NoSuchCapture)
  }

  /** The replacement text from position i of the template on. */
  function Expand(src: seq<byte>, caps: seq<Capture>, s: nat, e: nat, news: seq<byte>, i: nat): Text
    requires s <= e <= |src|
    decreases |news| - i
  {
    if i >= |news| then Text([])
    else if news[i] != ESC then Prefixed([news[i]], Expand(src, caps, s, e, news, i + 1))
    else
      var c := At(news, i + 1);
      if !IsDigit(c) then Prefixed([c], Expand(src, caps, s, e, news, i + 2))
      else if c == 48 then Prefixed(src[s..e], Expand(src, caps, s, e, news, i + 2))
      else match CaptureText(src, caps, s, e, c - 49)
        case Text(t) => Prefixed(t, Expand(src, caps, s, e, news, i + 2))
        case NoText(why) => NoText(why)
  }

  function Prefixed(t: seq<byte>, r: Text): Text {
    match r
    case Text(u) => Text(t + u)
    case NoText(why) => NoText(why)
  }

  /** add_s. */
  method AddS(src: seq<byte>, caps: seq<Capture>, s: nat, e: nat, news: seq<byte>) returns (r: Text)
    requires s <= e <= |src|
    ensures r == Expand(src, caps, s, e, news, 0)
  {
    hide Expand;
    var b: seq<byte> := [];
    var i := 0;
    PrefixedNone(Expand(src, caps, s, e, news, 0));
    while i < |news|
      invariant 0 <= i
      invariant Expand(src, caps, s, e, news, 0) == Prefixed(b, Expand(src, caps, s, e, news, i))
      decreases |news| - i
    {
      ExpandStep(src, caps, s, e, news, i);
      hide CaptureText;
      if news[i] != ESC {
        PrefixedTwice(b, [news[i]], Expand(src, caps, s, e, news, i + 1));
        b := b + [news[i]];
      } else {
        i := i + 1;
        var c := At(news, i);
        if !IsDigit(c) {
          PrefixedTwice(b, [c], Expand(src, caps, s, e, news, i + 1));
          b := b + [c];
        } else if c == 48 {
          PrefixedTwice(b, src[s..e], Expand(src, caps, s, e, news, i + 1));
          b := b + src[s..e];
        } else {
          var t := CaptureText(src, caps, s, e, c - 49);
          if t.NoText? { return t; }
          PrefixedTwice(b, t.bytes, Expand(src, caps, s, e, news, i + 1));
          b := b + t.bytes;
        }
      }
      i := i + 1;
    }
    ExpandEnd(src, caps, s, e, news, i);
    assert b + [] == b;
    return Text(b);
  }

  // ---------------------------------------------------------------- templates as lists

  /** What a template is made of: text without escapes, the whole match, a capture counted from 1, and any
      other character behind an escape, which stands for itself. */
  datatype Part = Raw(bytes: seq<byte>) | Whole | Group(i: nat) | Escaped(c: byte)

  predicate PartOk(p: Part) {
    match p
    case Raw(bytes) => ESC !in bytes
    case Whole => true
    case Group(i) => 1 <= i <= 9
    case Escaped(c) => !IsDigit(c)
  }

  function PartText(p: Part): seq<byte>
    requires PartOk(p)
  {
    match p
    case Raw(bytes) => bytes
    case Whole => [ESC, 48]
    case Group(i) => [ESC, 48 + i]
    case Escaped(c) => [ESC, c]
  }

  ghost predicate PartsOk(parts: seq<Part>) {
    forall i :: 0 <= i < |parts| ==> PartOk(parts[i])
  }

  function TemplateText(parts: seq<Part>): seq<byte>
    requires PartsOk(parts)
  {
    if parts == [] then [] else PartText(parts[0]) + TemplateText(parts[1..])
  }

  /** What one part gives in a match from s to e. */
  function Given(src: seq<byte>, caps: seq<Capture>, s: nat, e: nat, p: Part): Text
    requires s <= e <= |src|
  {
    match p
    case Raw(bytes) => Text(bytes)
    case Whole => Text(src[s..e])
    case Group(i) => if i == 0 then NoText(NoSuchCapture) else CaptureText(src, caps, s, e, i - 1)
    case Escaped(c) => Text([c])
  }

  /** All parts one after the other; the first that fails decides. */
  function Joined(src: seq<byte>, caps: seq<Capture>, s: nat, e: nat, parts: seq<Part>): Text
    requires s <= e <= |src|
  {
    if parts == [] then Text([])
    else match Given(src, caps, s, e, parts[0])
      case Text(t) => Prefixed(t, Joined(src, caps, s, e, parts[1..]))
      case NoText(why) => NoText(why)
  }

  lemma {:induction false} RawExpands(src: seq<byte>, caps: seq<Capture>, s: nat, e: nat, news: seq<byte>, i: nat,
                                      j: nat)
    requires s <= e <= |src| && i <= j <= |news| && ESC !in news[i..j]
    ensures Expand(src, caps, s, e, news, i) == Prefixed(news[i..j], Expand(src, caps, s, e, news, j))
    decreases j - i
  {
    hide Expand;
    if i == j {
      PrefixedNone(Expand(src, caps, s, e, news, j));
    } else {
      assert news[i..j][0] == news[i] && news[i..j] == [news[i]] + news[i + 1..j];
      RawExpands(src, caps, s, e, news, i + 1, j);
      ExpandStep(src, caps, s, e, news, i);
      PrefixedTwice([news[i]], news[i + 1..j], Expand(src, caps, s, e, news, j));
    }
  }

  /** A template gives what its parts give, in their order. */
  lemma {:induction false} ExpandMeans(src: seq<byte>, caps: seq<Capture>, s: nat, e: nat, news: seq<byte>, i: nat,
                                       parts: seq<Part>)
    requires s <= e <= |src| && PartsOk(parts) && i <= |news| && news[i..] == TemplateText(parts)
    ensures Expand(src, caps, s, e, news, i) == Joined(src, caps, s, e, parts)
    decreases |parts|
  {
    hide Expand;
    hide CaptureText;
    if parts == [] {
      ExpandEnd(src, caps, s, e, news, i);
    } else {
      var t := PartText(parts[0]);
      var j := i + |t|;
      assert news[i..][..|t|] == t && news[i..][|t|..] == TemplateText(parts[1..]);
      assert news[j..] == TemplateText(parts[1..]) && news[i..j] == t;
      ExpandMeans(src, caps, s, e, news, j, parts[1..]);
      if parts[0].Raw? {
        RawExpands(src, caps, s, e, news, i, j);
      } else {
        assert news[i..j][0] == news[i] && news[i..j][1] == news[i + 1];
        ExpandStep(src, caps, s, e, news, i);
      }
    }
  }

  /** The number a string of digits stands for. */
  function Value10(t: seq<byte>): int {
    if t == [] then 0 else 10 * Value10(t[..|t| - 1]) + (t[|t| - 1] as int - 48)
  }

  /** A position is written in decimal digits, without leading zeros. */
  lemma {:induction false} DecimalMeans(n: nat)
    ensures var t := Decimal(n);
            && |t| > 0 && (forall i :: 0 <= i < |t| ==> IsDigit(t[i])) && Value10(t) == n && (n > 0 ==> t[0] != 48)
  {
    var t := Decimal(n);
    if n >= 10 {
      DecimalMeans(n / 10);
      assert t[..|t| - 1] == Decimal(n / 10);
    } else {
      assert t[..|t| - 1] == [];
    }
  }

  lemma PrefixedNone(r: Text)
    ensures Prefixed([], r) == r
  {
    if r.Text? { assert [] + r.bytes == r.bytes; }
  }

  lemma ExpandEnd(src: seq<byte>, caps: seq<Capture>, s: nat, e: nat, news: seq<byte>, i: nat)
    requires s <= e <= |src| && i >= |news|
    ensures Expand(src, caps, s, e, news, i) == Text([])
  {
  }

  /** One round of add_s. */
  lemma ExpandStep(src: seq<byte>, caps: seq<Capture>, s: nat, e: nat, news: seq<byte>, i: nat)
    requires s <= e <= |src| && i < |news|
    ensures Expand(src, caps, s, e, news, i) ==
            if news[i] != ESC then Prefixed([news[i]], Expand(src, caps, s, e, news, i + 1))
            else
              var c := At(news, i + 1);
              if !IsDigit(c) then Prefixed([c], Expand(src, caps, s, e, news, i + 2))
              else if c == 48 then Prefixed(src[s..e], Expand(src, caps, s, e, news, i + 2))
              else match CaptureText(src, caps, s, e, c - 49)
                case Text(t) => Prefixed(t, Expand(src, caps, s, e, news, i + 2))
                case NoText(why) => NoText(why)
  {
    hide CaptureText;
  }

  lemma PrefixedTwice(a: seq<byte>, b: seq<byte>, r: Text)
    ensures Prefixed(a, Prefixed(b, r)) == Prefixed(a + b, r)
  {
    if r.Text? { assert a + (b + r.bytes) == a + b + r.bytes; }
  }

  /** The value of a capture that lies in the subject. */
  function ValueOf(src: seq<byte>, c: Capture): Option<Value> {
    if c.len >= POSITION && c.init + c.len <= |src| then CaptureValue(src, c) else None
  }

  function AllValues(src: seq<byte>, caps: seq<Capture>): Option<seq<Value>> {
    if caps == [] then Some([])
    else match ValueOf(src, caps[0])
      case None => None
      case Some(v) =>
        match AllValues(src, caps[1..])
        case None => None
        case Some(vs) => Some([v] + vs)
  }

  /** What a match from s to e passes to a replacement function. */
  function Arguments(src: seq<byte>, caps: seq<Capture>, s: nat, e: nat): Option<seq<Value>>
    requires s <= e <= |src|
  {
    if caps == [] then Some([Str(src[s..e])]) else AllValues(src, caps)
  }

  lemma {:induction false} AllValuesAre(src: seq<byte>, caps: seq<Capture>, values: Option<seq<Value>>)
    requires forall i :: 0 <= i < |caps| ==> caps[i].len >= POSITION && caps[i].init + caps[i].len <= |src|
    requires values.None? ==> exists i :: 0 <= i < |caps| && caps[i].len == UNFINISHED
    requires values.Some? ==> |values.value| == |caps|
                              && forall i :: 0 <= i < |caps| ==> CaptureValue(src, caps[i]) == Some(values.value[i])
    ensures AllValues(src, caps) == values
  {
    if caps != [] && caps[0].len != UNFINISHED {
      if values.Some? {
        AllValuesAre(src, caps[1..], Some(values.value[1..]));
        assert [values.value[0]] + values.value[1..] == values.value;
      } else {
        var i :| 0 <= i < |caps| && caps[i].len == UNFINISHED;
        assert caps[1..][i - 1] == caps[i];
        AllValuesAre(src, caps[1..], None);
      }
    }
  }

  function ReplyText(piece: seq<byte>, r: Reply): Text {
    match r
    case Falsy => Text(piece)
    case Gives(bytes) => Text(bytes)
    case Other => NoText(BadReplacement)
  }

  /** What the n-th match, from s to e, is replaced by. */
  function Replaced(src: seq<byte>, caps: seq<Capture>, s: nat, e: nat, repl: Replacement, n: nat): Text
    requires s <= e <= |src|
  {
    match repl
    case Template(news) => Expand(src, caps, s, e, news, 0)
    case Calls(f) =>
      (match Arguments(src, caps, s, e)
       case None => NoText(UnfinishedCapture)
       case Some(args) => ReplyText(src[s..e], f(n, args)))
    case Looks(t) =>
      match Arguments(src, if caps == [] then [] else caps[..1], s, e)
      case None => NoText(UnfinishedCapture)
      case Some(args) => ReplyText(src[s..e], t(args[0]))
  }

  /** add_value. */
  method AddValue(src: seq<byte>, caps: seq<Capture>, s: nat, e: nat, repl: Replacement, n: nat) returns (r: Text)
    requires s <= e <= |src| && CapturesOk(caps, e)
    ensures r == Replaced(src, caps, s, e, repl, n)
  {
    hide Expand;
    match repl
    case Template(news) => r := AddS(src, caps, s, e, news);
    case Calls(f) =>
      var args := PushCaptures(src, s, e, caps, false);
      if caps != [] { AllValuesAre(src, caps, args); }
      if args.None? { return NoText(UnfinishedCapture); }
      r := ReplyText(src[s..e], f(n, args.value));
    case Looks(t) =>
      var first := if caps == [] then [] else caps[..1];
      var args := PushCaptures(src, s, e, first, false);
      if first != [] { AllValuesAre(src, first, args); }
      if args.None? { return NoText(UnfinishedCapture); }
      r := ReplyText(src[s..e], t(args.value[0]));
  }

  function Before(t: seq<byte>, r: Substituted): Substituted {
    match r
    case Done(u, n) => Done(t + u, n)
    case Failed(why) => Failed(why)
  }

  lemma BeforeTwice(a: seq<byte>, b: seq<byte>, r: Substituted)
    ensures Before(a, Before(b, r)) == Before(a + b, r)
  {
    if r.Done? { assert a + (b + r.bytes) == a + b + r.bytes; }
  }

  /** The substitution from position s on, when n have been made so far. */
  function SubstituteFrom(src: seq<byte>, pat: seq<byte>, repl: Replacement, max: int, s: nat, n: nat): (r: Substituted)
    requires s <= |src|
    decreases |src| - s, 1
  {
    if n >= max then Done(src[s..], n)
    else match AtStart(src, pat, Body(pat), s)
      case Thrown(err) => Failed(Pattern(err))
      case Fail => Advance(src, pat, repl, max, s, s, n)
      case Found(e, caps) =>
        match Replaced(src, caps, s, e, repl, n)
        case NoText(why) => Failed(why)
        case Text(t) => Before(t, Advance(src, pat, repl, max, s, e, n + 1))
  }

  /** After the match attempt at s: skip the match, or copy one character, or stop; an anchored pattern is
      tried once. */
  function Advance(src: seq<byte>, pat: seq<byte>, repl: Replacement, max: int, s: nat, e: nat, n: nat): Substituted
    requires s <= e <= |src|
    decreases |src| - s, 0
  {
    if e > s then (if At(pat, 0) == 94 then Done(src[e..], n) else SubstituteFrom(src, pat, repl, max, e, n))
    else if s < |src| then
      Before([src[s]], if At(pat, 0) == 94 then Done(src[s + 1..], n)
             else SubstituteFrom(src, pat, repl, max, s + 1, n))
    else Done([], n)
  }

  // ---------------------------------------------------------------- what a substitution is

  /** A match that is replaced. */
  datatype Hit = Hit(s: nat, e: nat, caps: seq<Capture>)

  /** Why there are no more: they are enough or there is none, or the matcher raises an error. */
  datatype Ending = Over | Raises(err: LuaPattern.Error)

  /** The first start from q on at which the outcome is no failure. */
  ghost predicate FirstFrom(src: seq<byte>, pat: seq<byte>, q: nat, s: nat, out: Outcome) {
    && q <= s <= LastStart(src, pat, 0) && s <= |src| && AtStart(src, pat, Body(pat), s) == out
    && forall x: nat :: q <= x < s ==> FailsAt(src, pat, Body(pat), x)
  }

  ghost predicate NoneFrom(src: seq<byte>, pat: seq<byte>, q: nat) {
    forall x: nat :: q <= x <= LastStart(src, pat, 0) ==> FailsAt(src, pat, Body(pat), x)
  }

  /** Where the search goes on: behind the match, and one character further when that is empty. */
  function Onward(h: Hit): nat {
    if h.e > h.s then h.e else h.s + 1
  }

  /** Searching from q on, the matches are these, at most max of them, each the first one from where the search goes
      on. */
  ghost predicate Run(src: seq<byte>, pat: seq<byte>, max: int, q: nat, hits: seq<Hit>, ending: Ending)
    decreases |hits|
  {
    if hits != [] then
      && max > 0 && FirstFrom(src, pat, q, hits[0].s, Found(hits[0].e, hits[0].caps))
      && Run(src, pat, max - 1, Onward(hits[0]), hits[1..], ending)
    else match ending
      case Over => max <= 0 || NoneFrom(src, pat, q)
      case Raises(err) => max > 0 && exists s :: FirstFrom(src, pat, q, s, Thrown(err))
  }

  predicate HitsInside(src: seq<byte>, c: nat, hits: seq<Hit>)
    decreases |hits|
  {
    if hits == [] then c <= |src|
    else c <= hits[0].s <= hits[0].e <= |src| && HitsInside(src, hits[0].e, hits[1..])
  }

  /** The subject from c on with each match replaced and everything else as it is; n have been replaced before. */
  function Woven(src: seq<byte>, c: nat, hits: seq<Hit>, repl: Replacement, n: nat): Text
    requires HitsInside(src, c, hits)
    decreases |hits|
  {
    if hits == [] then Text(src[c..])
    else match Replaced(src, hits[0].caps, hits[0].s, hits[0].e, repl, n)
      case NoText(why) => NoText(why)
      case Text(t) => Prefixed(src[c..hits[0].s] + t, Woven(src, hits[0].e, hits[1..], repl, n + 1))
  }

  function Result(src: seq<byte>, c: nat, hits: seq<Hit>, ending: Ending, repl: Replacement, n: nat): Substituted
    requires HitsInside(src, c, hits)
  {
    match Woven(src, c, hits, repl, n)
    case NoText(why) => Failed(why)
    case Text(b) => if ending.Over? then Done(b, n + |hits|) else Failed(Pattern(ending.err))
  }

  lemma {:induction false} RunInside(src: seq<byte>, pat: seq<byte>, max: int, q: nat, hits: seq<Hit>, ending: Ending,
                                     c: nat)
    requires Run(src, pat, max, q, hits, ending) && c <= q && c <= |src|
    ensures HitsInside(src, c, hits)
    decreases |hits|
  {
    hide AtStart;
    if hits != [] {
      var h := hits[0];
      FoundInside(src, pat, h);
      RunInside(src, pat, max - 1, Onward(h), hits[1..], ending, h.e);
    }
  }

  lemma FoundInside(src: seq<byte>, pat: seq<byte>, h: Hit)
    requires h.s <= |src| && AtStart(src, pat, Body(pat), h.s) == Found(h.e, h.caps)
    ensures h.s <= h.e <= |src|
  {
  }

  /** A start that fails can be passed over. */
  lemma RunFromNext(src: seq<byte>, pat: seq<byte>, max: int, q: nat, hits: seq<Hit>, ending: Ending)
    requires Run(src, pat, max, q, hits, ending) && FailsAt(src, pat, Body(pat), q)
    ensures Run(src, pat, max, q + 1, hits, ending)
  {
    hide AtStart;
    if hits == [] && ending.Raises? && max > 0 {
      var s :| FirstFrom(src, pat, q, s, Thrown(ending.err));
      assert FirstFrom(src, pat, q + 1, s, Thrown(ending.err));
    }
  }

  /** And so it can be when it is still searched from. */
  lemma RunFromHere(src: seq<byte>, pat: seq<byte>, max: int, q: nat, hits: seq<Hit>, ending: Ending)
    requires Run(src, pat, max, q + 1, hits, ending) && FailsAt(src, pat, Body(pat), q)
    ensures Run(src, pat, max, q, hits, ending)
  {
    hide AtStart;
    if hits == [] && ending.Raises? && max > 0 {
      var s :| FirstFrom(src, pat, q + 1, s, Thrown(ending.err));
      assert FirstFrom(src, pat, q, s, Thrown(ending.err));
    }
  }

  /** Behind the last start there is nothing. */
  lemma RunIsOver(src: seq<byte>, pat: seq<byte>, max: int, q: nat, hits: seq<Hit>, ending: Ending)
    requires Run(src, pat, max, q, hits, ending) && q > LastStart(src, pat, 0)
    ensures hits == [] && ending == Over
  {
  }

  lemma OverRuns(src: seq<byte>, pat: seq<byte>, max: int, q: nat)
    requires q > LastStart(src, pat, 0)
    ensures Run(src, pat, max, q, [], Over)
  {
  }

  /** A character in front of the next match is copied. */
  lemma ResultCopies(src: seq<byte>, c: nat, hits: seq<Hit>, ending: Ending, repl: Replacement, n: nat)
    requires c < |src| && HitsInside(src, c + 1, hits)
    ensures HitsInside(src, c, hits)
    ensures Result(src, c, hits, ending, repl, n) == Before([src[c]], Result(src, c + 1, hits, ending, repl, n))
  {
    hide Replaced;
    if hits == [] {
      assert src[c..] == [src[c]] + src[c + 1..];
    } else {
      var h := hits[0];
      var r := Replaced(src, h.caps, h.s, h.e, repl, n);
      if r.Text? {
        assert src[c..h.s] + r.bytes == [src[c]] + (src[c + 1..h.s] + r.bytes);
        PrefixedTwice([src[c]], src[c + 1..h.s] + r.bytes, Woven(src, h.e, hits[1..], repl, n + 1));
      }
    }
  }

  /** The text of a match that begins here comes first. */
  lemma ResultReplaces(src: seq<byte>, hits: seq<Hit>, ending: Ending, repl: Replacement, n: nat)
    requires hits != [] && HitsInside(src, hits[0].s, hits)
    ensures Result(src, hits[0].s, hits, ending, repl, n)
            == match Replaced(src, hits[0].caps, hits[0].s, hits[0].e, repl, n)
               case NoText(why) => Failed(why)
               case Text(t) => Before(t, Result(src, hits[0].e, hits[1..], ending, repl, n + 1))
  {
    hide Replaced;
    var h := hits[0];
    var r := Replaced(src, h.caps, h.s, h.e, repl, n);
    if r.Text? { assert src[h.s..h.s] + r.bytes == r.bytes; }
  }

  /** At a start that is searched from, only its own outcome can begin a run. */
  lemma RunBegins(src: seq<byte>, pat: seq<byte>, max: int, s: nat, hits: seq<Hit>, ending: Ending)
    requires Run(src, pat, max, s, hits, ending) && max > 0 && s <= |src| && s <= LastStart(src, pat, 0)
    ensures match AtStart(src, pat, Body(pat), s)
            case Thrown(err) => hits == [] && ending == Raises(err)
            case Found(e, caps) => hits != [] && hits[0] == Hit(s, e, caps)
            case Fail => true
  {
    hide AtStart;
    if hits != [] {
      if s < hits[0].s { assert FailsAt(src, pat, Body(pat), s); }
    } else if ending.Raises? {
      var x :| FirstFrom(src, pat, s, x, Thrown(ending.err));
      if s < x { assert FailsAt(src, pat, Body(pat), s); }
    } else {
      assert FailsAt(src, pat, Body(pat), s);
    }
  }

  /** The substitution from s on is what its run makes of the rest of the subject. */
  lemma {:induction false} SubstituteMeans(src: seq<byte>, pat: seq<byte>, repl: Replacement, max: int, s: nat, n: nat,
                                           hits: seq<Hit>, ending: Ending)
    requires s <= |src| && s <= LastStart(src, pat, 0) && Run(src, pat, max - n, s, hits, ending)
    ensures HitsInside(src, s, hits)
    ensures SubstituteFrom(src, pat, repl, max, s, n) == Result(src, s, hits, ending, repl, n)
    decreases |src| - s, 1
  {
    hide AtStart;
    hide Replaced;
    hide Result;
    hide Run;
    hide HitsInside;
    RunInside(src, pat, max - n, s, hits, ending, s);
    if n >= max {
      EnoughRun(src, pat, max - n, s, hits, ending, repl, n);
    } else {
      RunBegins(src, pat, max - n, s, hits, ending);
      match AtStart(src, pat, Body(pat), s)
      case Thrown(err) => NoHits(src, s, ending, repl, n);
      case Fail =>
        RunFromNext(src, pat, max - n, s, hits, ending);
        AdvanceMeans(src, pat, repl, max, s, s, n, hits, ending);
      case Found(e, caps) =>
        RunGoesOn(src, pat, max - n, s, hits, ending);
        AdvanceMeans(src, pat, repl, max, s, e, n + 1, hits[1..], ending);
        ResultReplaces(src, hits, ending, repl, n);
    }
  }

  lemma EnoughRun(src: seq<byte>, pat: seq<byte>, max: int, s: nat, hits: seq<Hit>, ending: Ending, repl: Replacement,
                  n: nat)
    requires s <= |src| && Run(src, pat, max, s, hits, ending) && max <= 0
    ensures HitsInside(src, s, hits) && Result(src, s, hits, ending, repl, n) == Done(src[s..], n)
  {
  }

  lemma NoHits(src: seq<byte>, s: nat, ending: Ending, repl: Replacement, n: nat)
    requires s <= |src|
    ensures HitsInside(src, s, [])
    ensures Result(src, s, [], ending, repl, n)
            == if ending.Over? then Done(src[s..], n) else Failed(Pattern(ending.err))
  {
  }

  lemma RunGoesOn(src: seq<byte>, pat: seq<byte>, max: int, q: nat, hits: seq<Hit>, ending: Ending)
    requires Run(src, pat, max, q, hits, ending) && hits != []
    ensures Run(src, pat, max - 1, Onward(hits[0]), hits[1..], ending)
  {
  }

  lemma {:induction false} AdvanceMeans(src: seq<byte>, pat: seq<byte>, repl: Replacement, max: int, s: nat, e: nat,
                                        n: nat, hits: seq<Hit>, ending: Ending)
    requires s <= e <= |src| && s <= LastStart(src, pat, 0)
    requires Run(src, pat, max - n, if e > s then e else s + 1, hits, ending)
    ensures HitsInside(src, e, hits)
    ensures Advance(src, pat, repl, max, s, e, n) == Result(src, e, hits, ending, repl, n)
    decreases |src| - s, 0
  {
    hide Result;
    hide Run;
    hide HitsInside;
    hide SubstituteFrom;
    var q := if e > s then e else s + 1;
    RunInside(src, pat, max - n, q, hits, ending, e);
    if q > LastStart(src, pat, 0) {
      RunIsOver(src, pat, max - n, q, hits, ending);
      NoHits(src, e, ending, repl, n);
      if e == s < |src| { assert src[e..] == [src[s]] + src[s + 1..]; }
    } else {
      SubstituteMeans(src, pat, repl, max, q, n, hits, ending);
      if e == s { ResultCopies(src, s, hits, ending, repl, n); }
    }
  }

  /** There is a run from every start. */
  lemma {:induction false} RunExists(src: seq<byte>, pat: seq<byte>, max: int, q: nat)
    returns (hits: seq<Hit>, ending: Ending)
    ensures Run(src, pat, max, q, hits, ending)
    decreases if q <= |src| then |src| + 1 - q else 0
  {
    hide AtStart;
    hits, ending := [], Over;
    if max > 0 && q <= LastStart(src, pat, 0) {
      match AtStart(src, pat, Body(pat), q)
      case Thrown(err) =>
        ending := Raises(err);
        assert FirstFrom(src, pat, q, q, Thrown(err));
      case Fail =>
        hits, ending := RunExists(src, pat, max, q + 1);
        RunFromHere(src, pat, max, q, hits, ending);
      case Found(e, caps) =>
        var h := Hit(q, e, caps);
        var more;
        more, ending := RunExists(src, pat, max - 1, Onward(h));
        hits := [h] + more;
        assert hits[1..] == more && hits[0] == h;
    }
  }

  /** Some subject, pattern and limit have exactly one run, and it decides. */
  lemma SubstitutionMeans(src: seq<byte>, pat: seq<byte>, repl: Replacement, max: int)
    ensures forall hits, ending :: Run(src, pat, max, 0, hits, ending)
              ==> HitsInside(src, 0, hits)
                  && SubstituteFrom(src, pat, repl, max, 0, 0) == Result(src, 0, hits, ending, repl, 0)
    ensures exists hits, ending :: Run(src, pat, max, 0, hits, ending)
  {
    hide Run;
    hide Result;
    hide HitsInside;
    hide SubstituteFrom;
    var hits0, ending0 := RunExists(src, pat, max, 0);
    forall hits, ending | Run(src, pat, max, 0, hits, ending)
      ensures HitsInside(src, 0, hits)
              && SubstituteFrom(src, pat, repl, max, 0, 0) == Result(src, 0, hits, ending, repl, 0)
    {
      SubstituteMeans(src, pat, repl, max, 0, 0, hits, ending);
    }
  }

  /** string.gsub. */
  method Gsub(src: seq<byte>, pat: seq<byte>, repl: Replacement, max: int) returns (r: Substituted)
    ensures r == SubstituteFrom(src, pat, repl, max, 0, 0)
    ensures forall hits, ending :: Run(src, pat, max, 0, hits, ending)
              ==> HitsInside(src, 0, hits) && r == Result(src, 0, hits, ending, repl, 0)
    ensures exists hits, ending :: Run(src, pat, max, 0, hits, ending)
  {
    hide Run;
    hide Result;
    hide HitsInside;
    SubstitutionMeans(src, pat, repl, max);
    var anchor := At(pat, 0) == 94;
    var p := Body(pat);
    var n := 0;
    var s := 0;
    var b: seq<byte> := [];
    var ms := new MatchState(src, pat);
    while n < max
      invariant s <= |src|
      invariant fresh(ms) && fresh(ms.capture) && ms.src == src && ms.pat == pat && ms.capture.Length == MAXCAPTURES
      invariant SubstituteFrom(src, pat, repl, max, 0, 0) == Before(b, SubstituteFrom(src, pat, repl, max, s, n))
      decreases |src| - s, max - n
    {
      ms.level, ms.depth := 0, 0;
      assert ms.Caps() == [];
      var m := ms.DoMatch(s, p);
      if m.Raised? { return Failed(Pattern(m.err)); }
      ghost var b0, n0 := b, n;
      var e := s;
      if m.Match? {
        e := m.end;
        var t := AddValue(src, ms.capture[..ms.level], s, e, repl, n);
        n := n + 1;
        if t.NoText? { return Failed(t.why); }
        b := b + t.bytes;
        BeforeTwice(b0, t.bytes, Advance(src, pat, repl, max, s, e, n));
      }
      assert SubstituteFrom(src, pat, repl, max, 0, 0) == Before(b, Advance(src, pat, repl, max, s, e, n));
      if e > s {
        s := e;
      } else if s < |src| {
        BeforeTwice(b, [src[s]], if anchor then Done(src[s + 1..], n)
                    else SubstituteFrom(src, pat, repl, max, s + 1, n));
        b := b + [src[s]];
        s := s + 1;
      } else {
        assert src[s..] == [];
        break;
      }
      if anchor { break; }
    }
    return Done(b + src[s..], n);
  }

  // ---------------------------------------------------------------- %0

  const WHOLE: seq<byte> := [37, 48]

  lemma WholeMatch(src: seq<byte>, caps: seq<Capture>, s: nat, e: nat)
    requires s <= e <= |src|
    ensures Expand(src, caps, s, e, WHOLE, 0) == Text(src[s..e])
  {
    assert Expand(src, caps, s, e, WHOLE, 2) == Text([]);
    assert At(WHOLE, 1) == 48;
    assert src[s..e] + [] == src[s..e];
  }

  /** The replacement gives every match back, unless it is not strict and a capture is unfinished. */
  ghost predicate Keeps(src: seq<byte>, repl: Replacement, strict: bool) {
    forall caps, s: nat, e: nat, n: nat {:trigger Replaced(src, caps, s, e, repl, n)} ::
      s <= e <= |src| ==> (var r := Replaced(src, caps, s, e, repl, n);
                           r == Text(src[s..e]) || (!strict && r == NoText(UnfinishedCapture)))
  }

  predicate MayFail(why: Failure, strict: bool) {
    why.Pattern? || (!strict && why == UnfinishedCapture)
  }

  /** Matched pieces and copied characters partition the subject, each step makes progress, and the number of
      substitutions is bounded by the limit and by the number of positions. */
  lemma {:induction false} PiecesPartition(src: seq<byte>, pat: seq<byte>, repl: Replacement, strict: bool, max: int,
                                           s: nat, n: nat)
    requires s <= |src| && Keeps(src, repl, strict)
    ensures var r := SubstituteFrom(src, pat, repl, max, s, n);
            && (r.Done? ==> && r.bytes == src[s..] && n <= r.count <= n + |src| - s + 1
                            && (r.count <= max || r.count == n))
            && (r.Failed? ==> MayFail(r.why, strict))
    decreases |src| - s, 1
  {
    hide AtStart;
    hide Replaced;
    if n < max {
      var out := AtStart(src, pat, Body(pat), s);
      match out
      case Thrown(err) =>
      case Fail => AdvancePartition(src, pat, repl, strict, max, s, s, n);
      case Found(e, caps) =>
        var t := Replaced(src, caps, s, e, repl, n);
        AdvancePartition(src, pat, repl, strict, max, s, e, n + 1);
        assert src[s..e] + src[e..] == src[s..];
    }
  }

  lemma {:induction false} AdvancePartition(src: seq<byte>, pat: seq<byte>, repl: Replacement, strict: bool, max: int,
                                            s: nat, e: nat, n: nat)
    requires s <= e <= |src| && Keeps(src, repl, strict)
    ensures var r := Advance(src, pat, repl, max, s, e, n);
            && (r.Done? ==> && r.bytes == src[e..] && n <= r.count <= n + |src| - s
                            && (r.count <= max || r.count == n))
            && (r.Failed? ==> MayFail(r.why, strict))
    decreases |src| - s, 0
  {
    hide Keeps;
    if e > s {
      PiecesPartition(src, pat, repl, strict, max, e, n);
    } else if s < |src| {
      PiecesPartition(src, pat, repl, strict, max, s + 1, n);
      assert [src[s]] + src[s + 1..] == src[s..];
    }
  }

  /** gsub(s, p, "%0", n) is s. */
  lemma WholeIsIdentity(src: seq<byte>, pat: seq<byte>, max: int)
    ensures var r := SubstituteFrom(src, pat, Template(WHOLE), max, 0, 0);
            && (r.Done? ==> r.bytes == src && r.count <= |src| + 1 && (r.count <= max || r.count == 0))
            && (r.Failed? ==> r.why.Pattern?)
  {
    forall caps, s: nat, e: nat, n: nat | s <= e <= |src|
      ensures Replaced(src, caps, s, e, Template(WHOLE), n) == Text(src[s..e])
    {
      WholeMatch(src, caps, s, e);
    }
    PiecesPartition(src, pat, Template(WHOLE), true, max, 0, 0);
    assert src[0..] == src;
  }

  /** A function that always returns nil or false changes nothing. */
  lemma RefusalIsIdentity(src: seq<byte>, pat: seq<byte>, f: (nat, seq<Value>) -> Reply, max: int)
    requires forall n, args :: f(n, args) == Falsy
    ensures var r := SubstituteFrom(src, pat, Calls(f), max, 0, 0);
            && (r.Done? ==> r.bytes == src && r.count <= |src| + 1 && (r.count <= max || r.count == 0))
            && (r.Failed? ==> r.why.Pattern? || r.why == UnfinishedCapture)
  {
    hide Arguments;
    assert Keeps(src, Calls(f), false);
    PiecesPartition(src, pat, Calls(f), false, max, 0, 0);
    assert src[0..] == src;
  }
}
