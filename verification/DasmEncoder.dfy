/**
  The DynASM x86 encoder: pass 1 records puts, pass 2 links, pass 3 encodes.
 */
module DasmEncoder {
  import opened Common
  import opened DasmCode
  import opened DasmLabels
  import opened DasmActions
  import opened DasmStore
  import opened DasmFlat
  import opened DasmOutput
  import opened DasmBytes

  const S_OK := 0
  const S_RANGE_I := 0x11000000
  const S_RANGE_SEC := 0x12000000
  const S_RANGE_LG := 0x13000000
  const S_RANGE_PC := 0x14000000
  const S_UNDEF_L := 0x21000000
  const S_UNDEF_PC := 0x22000000
  const S_PHASE := 0x02000000
  const S_MATCH_SEC := 0x03000000

  /** Everything one put records from position `at` and offset `est` of its section on. */
  function Recorded(al: ActionList, start: nat, args: nat -> Int32, at: int, est: int): seq<Item>
    requires Listing(al, start, args, 0, [])
  {
    [Item(start, Start, 0, at, est)] + Record(al, start, args, 0, [], at + 1, est)
  }

  /** The item a put that has reached p records next. */
  function Pick(al: ActionList, p: nat, args: nat -> Int32, k: nat, at: int, est: int): Item
    requires p < |al|
  {
    var a := Decode(al, p);
    Item(p, a, if a.TakesArg() then args(k) else 0, at, est)
  }

  /** A put ends with its terminator, which marks the next free position. */
  lemma {:induction false} RecordEnds(al: ActionList, p: nat, args: nat -> Int32, k: nat, recent: seq<byte>, at: int,
                                      est: int)
    requires Listing(al, p, args, k, recent)
    ensures var r := Record(al, p, args, k, recent, at, est);
            && |r| > 0 && r[|r|-1].a.Terminal()
            && r[0] == Pick(al, p, args, k, at, est) && r[0].at + r[0].a.Slots() <= r[|r|-1].at
            && at <= r[|r|-1].at
    decreases |al| - p
  {
    hide Decode;
    var it := Pick(al, p, args, k, at, est);
    if !it.a.Terminal() {
      RecordEnds(al, p + it.a.Length(), args, if it.a.TakesArg() then k + 1 else k,
                 if it.a.Literal? then recent + [it.a.b] else [], at + it.a.Slots(), est + it.Grows());
    }
  }

  function LastAt(items: seq<Item>): int
    requires |items| > 0
  {
    items[|items|-1].at
  }

  /** How many sections, local and global labels, and pc labels there are. */
  datatype Limits = Limits(sections: nat, lg: nat, pc: nat)

  /** The range checks of pass 1 that do not depend on earlier labels. */
  predicate InRange(it: Item, lim: Limits) {
    match it.a
    case ImmS => -128 <= it.n <= 127
    case ImmB => 0 <= it.n <= 255
    case ImmW => 0 <= it.n <= 65535
    case RelLG(l) => l > 246 || l < lim.lg
    case AddrLG(l) => l > 246 || l < lim.lg
    case LabelLG(l) => l < lim.lg
    case RelPC => 0 <= it.n < lim.pc
    case AddrPC => 0 <= it.n < lim.pc
    case LabelPC => 0 <= it.n < lim.pc
    case Section(n) => n < lim.sections
    case _ => true
  }

  /** Everything recorded is in range, and arguments are 32-bit numbers. */
  ghost predicate LogInRange(log: seq<seq<Item>>, lim: Limits) {
    forall s, k :: 0 <= s < |log| && 0 <= k < |log[s]| ==> ItemInRange(log[s][k], lim)
  }

  predicate ItemInRange(it: Item, lim: Limits) {
    InRange(it, lim) && -0x8000_0000 <= it.n < 0x8000_0000
  }

  /** A reference to an earlier definition of a local label. */
  predicate BackwardLocal(it: Item) {
    (it.a.RelLG? || it.a.AddrLG?) && it.a.n < 10
  }

  /** Pass 1 refuses an item that is out of range, and a backward local reference that no visible
      definition precedes. */
  ghost predicate Refused(it: Item, hist: seq<Event>, lim: Limits) {
    !InRange(it, lim) || (BackwardLocal(it) && !Visible(hist, it.Label()))
  }

  /** The status that says where in the action list a check failed. */
  function ErrorCode(it: Item): (r: int)
    ensures r != S_OK
  {
    match it.a
    case RelPC => S_RANGE_PC + it.p
    case AddrPC => S_RANGE_PC + it.p
    case LabelPC => S_RANGE_PC + it.p
    case RelLG(_) => S_RANGE_LG + it.p + 1
    case AddrLG(_) => S_RANGE_LG + it.p + 1
    case LabelLG(_) => S_RANGE_LG + it.p + 1
    case Section(_) => S_RANGE_SEC + it.p
    case _ => S_RANGE_I + it.p
  }

  /** The status after a put has gone through the items from the given history on: the first refusal counts. */
  ghost function Check(items: seq<Item>, hist: seq<Event>, lim: Limits): int {
    if items == [] then S_OK
    else if Refused(items[0], hist, lim) then ErrorCode(items[0])
    else Check(items[1..], hist + EventOf(items[0]), lim)
  }

  /** The j-th item of a put is refused, given the history before the put and the items before it. */
  ghost predicate RefusedAt(items: seq<Item>, hist: seq<Event>, lim: Limits, j: nat) {
    j < |items| && Refused(items[j], hist + Events(items[..j]), lim)
  }

  lemma RefusedShift(items: seq<Item>, hist: seq<Event>, lim: Limits, j: nat)
    requires items != []
    ensures RefusedAt(items, hist, lim, j + 1) <==> RefusedAt(items[1..], hist + EventOf(items[0]), lim, j)
  {
    hide Refused;
    hide EventOf;
    if j + 1 < |items| {
      EventsFirst(items[..j+1]);
      assert items[..j+1][1..] == items[1..][..j];
      hide Events;
      assert hist + EventOf(items[0]) + Events(items[1..][..j]) == hist + Events(items[..j+1]);
    }
  }

  /** A put succeeds just when each of its items is accepted after the ones before it; otherwise the
      first one that is not gives the status. */
  lemma {:induction false} CheckMeans(items: seq<Item>, hist: seq<Event>, lim: Limits) returns (j: nat)
    ensures Check(items, hist, lim) == S_OK <==> forall i: nat :: !RefusedAt(items, hist, lim, i)
    ensures Check(items, hist, lim) != S_OK ==>
              && RefusedAt(items, hist, lim, j) && Check(items, hist, lim) == ErrorCode(items[j])
              && forall i: nat :: i < j ==> !RefusedAt(items, hist, lim, i)
  {
    hide Refused;
    hide ErrorCode;
    hide EventOf;
    j := 0;
    if items != [] {
      assert items[..0] == [] && hist + [] == hist;
      assert RefusedAt(items, hist, lim, 0) <==> Refused(items[0], hist, lim);
      if !Refused(items[0], hist, lim) {
        var hist' := hist + EventOf(items[0]);
        var rest := items[1..];
        j := CheckMeans(rest, hist', lim);
        forall i: nat ensures RefusedAt(items, hist, lim, i + 1) <==> RefusedAt(rest, hist', lim, i) {
          RefusedShift(items, hist, lim, i);
        }
        hide RefusedAt;
        forall i: nat | i > 0 ensures RefusedAt(items, hist, lim, i) <==> RefusedAt(rest, hist', lim, i - 1) {
          var i' := i - 1;
          assert RefusedAt(items, hist, lim, i' + 1) <==> RefusedAt(rest, hist', lim, i');
        }
        j := j + 1;
      }
    }
  }

  lemma {:induction false} RecordArgs(al: ActionList, p: nat, args: nat -> Int32, k: nat, recent: seq<byte>, at: int,
                                      est: int)
    requires Listing(al, p, args, k, recent)
    ensures forall it :: it in Record(al, p, args, k, recent, at, est) ==> -0x8000_0000 <= it.n < 0x8000_0000
    decreases |al| - p
  {
    hide Decode;
    var a := Decode(al, p);
    var it := Item(p, a, if a.TakesArg() then args(k) else 0, at, est);
    if !a.Terminal() {
      RecordArgs(al, p + a.Length(), args, if a.TakesArg() then k + 1 else k,
                 if a.Literal? then recent + [a.b] else [], at + a.Slots(), est + it.Grows());
    }
  }

  /** A put that succeeds has recorded items in range. */
  lemma PutInRange(log: seq<seq<Item>>, s: nat, items: seq<Item>, hist: seq<Event>, lim: Limits)
    requires LogInRange(log, lim) && s < |log| && Check(items, hist, lim) == S_OK
    requires forall it :: it in items ==> -0x8000_0000 <= it.n < 0x8000_0000
    ensures LogInRange(log[s := log[s] + items], lim)
  {
    hide InRange;
    var _ := CheckMeans(items, hist, lim);
    forall j | 0 <= j < |items| ensures ItemInRange(items[j], lim) {
      assert !RefusedAt(items, hist, lim, j);
    }
    hide Check;
    var log' := log[s := log[s] + items];
    forall t, k | 0 <= t < |log'| && 0 <= k < |log'[t]| ensures ItemInRange(log'[t][k], lim) {
      if t == s && k >= |log[s]| {
        assert log'[t][k] == items[k - |log[s]|];
      } else {
        assert log'[t][k] == log[t][k];
      }
    }
  }

  /** The literals at the end of a log. */
  ghost predicate EndsWith(L: seq<Item>, recent: seq<byte>) {
    && |recent| <= |L|
    && forall i :: |L| - |recent| <= i < |L| ==> L[i].a.Literal? && L[i].a.b == recent[i - (|L| - |recent|)]
  }

  lemma ChainsKnown(al: ActionList, st: Store, tr: Trail)
    requires Inv(al, st, tr)
    ensures forall key :: key in tr.chains <==> Known(st.lg, st.pc, key)
    ensures forall key :: key in tr.chains ==> ChainOk(st.cells, Slot(st.lg, st.pc, key), tr.chains[key])
  {
  }

  function After(it: Item): nat {
    if it.a.Start? then it.p else it.p + it.a.Length()
  }

  function NextArg(it: Item, k: nat): nat {
    if it.a.TakesArg() then k + 1 else k
  }

  function NextRecent(it: Item, recent: seq<byte>): seq<byte> {
    if it.a.Literal? then recent + [it.a.b] else []
  }

  lemma PickFits(al: ActionList, base: int, L: seq<Item>, p: nat, args: nat -> Int32, k: nat, recent: seq<byte>)
    requires LogOk(al, base, L) && |L| > 0 && !L[|L|-1].a.Terminal() && After(L[|L|-1]) == p
    requires EndsWith(L, recent) && Listing(al, p, args, k, recent)
    ensures var it := Pick(al, p, args, k, EndAt(base, L), EndEst(L));
            && (it.KeyOk() ==> LogOk(al, base, L + [it]))
            && EndsWith(L + [it], if it.a.Literal? then recent + [it.a.b] else [])
  {
    var it := Pick(al, p, args, k, EndAt(base, L), EndEst(L));
    var L' := L + [it];
    if it.KeyOk() {
      if it.a.IsRel() {
        var op := al[p-1];
        if Saving(op) == 4 { assert L'[|L|-2] == L[|L|-2]; }
      }
      LogAppend(al, base, L, it);
    }
    EndsWithNext(L, recent, it);
  }

  lemma EndsWithNext(L: seq<Item>, recent: seq<byte>, it: Item)
    requires EndsWith(L, recent)
    ensures EndsWith(L + [it], if it.a.Literal? then recent + [it.a.b] else [])
  {
  }

  lemma StartFits(al: ActionList, st: Store, tr: Trail, s: nat, start: nat)
    requires Inv(al, st, tr) && Complete(tr.log) && s < |tr.log| && start < |al|
    requires |st.pos| == |st.ofs| == |tr.log| && st.pos[s] + 1 < s * BIAS + BIAS
    ensures NextItem(al, st, tr, s, Item(start, Start, 0, st.pos[s], st.ofs[s]))
    ensures 0 <= st.pos[s]
  {
    assert SectionOk(al, s, st.pos[s], st.ofs[s], tr.log[s]);
    SectionStarts(al, st.pos, st.ofs, st.cells, tr.links, tr.log, s);
    LogAppend(al, s * BIAS, tr.log[s], Item(start, Start, 0, st.pos[s], st.ofs[s]));
  }

  lemma Picks(al: ActionList, st: Store, tr: Trail, s: nat, p: nat, args: nat -> Int32, k: nat, recent: seq<byte>)
    requires Inv(al, st, tr) && s < |tr.log| && |st.pos| == |st.ofs| == |tr.log|
    requires Reached(tr.log[s], p, recent) && Listing(al, p, args, k, recent)
    requires var it := Pick(al, p, args, k, st.pos[s], st.ofs[s]); it.at + it.a.Slots() < s * BIAS + BIAS
    ensures var it := Pick(al, p, args, k, st.pos[s], st.ofs[s]);
            && (it.KeyOk() ==> NextItem(al, st, tr, s, it))
            && (!it.a.Terminal() ==> Reached(tr.log[s] + [it], After(it), NextRecent(it, recent)))
  {
    assert SectionOk(al, s, st.pos[s], st.ofs[s], tr.log[s]);
    PickFits(al, s * BIAS, tr.log[s], p, args, k, recent);
  }

  /** One step of a put's walk through the action list. */
  lemma RecordStep(al: ActionList, p: nat, args: nat -> Int32, k: nat, recent: seq<byte>, at: int, est: int)
    requires Listing(al, p, args, k, recent)
    ensures p < |al|
    ensures var it := Pick(al, p, args, k, at, est);
            && !it.a.Start? && !it.a.Unknown? && it.p == p && it.at == at && it.est == est
            && (it.a.Terminal() ==> Record(al, p, args, k, recent, at, est) == [it])
            && (!it.a.Terminal() ==>
                  && Listing(al, After(it), args, NextArg(it, k), NextRecent(it, recent))
                  && Record(al, p, args, k, recent, at, est)
                     == [it] + Record(al, After(it), args, NextArg(it, k), NextRecent(it, recent),
                                      at + it.a.Slots(), est + it.Grows()))
  {
  }

  /** A put in progress has reached p: the log ends in an action that leads there, after these literals. */
  ghost predicate Reached(L: seq<Item>, p: nat, recent: seq<byte>) {
    |L| > 0 && !L[|L|-1].a.Terminal() && After(L[|L|-1]) == p && EndsWith(L, recent)
  }

  /** What a put leaves: all its items logged and the next section chosen, or the status of the check
      that failed. */
  ghost predicate Outcome(items: seq<Item>, log0: seq<seq<Item>>, log: seq<seq<Item>>, hist0: seq<Event>,
                          hist: seq<Event>, s: nat, status: int, cur0: nat, cur: nat, lim: Limits) {
    && |items| > 0 && s < |log0| == |log| == lim.sections
    && status == Check(items, hist0, lim)
    && (status == S_OK ==>
          var last := items[|items|-1].a;
          && log == log0[s := log0[s] + items]
          && hist == hist0 + Events(items)
          && last.Terminal()
          && cur == (if last.Section? then last.n else cur0) && (cur0 < |log0| ==> cur < |log|))
  }

  /** A put has recorded `done` and has the actions from p on still to do. */
  ghost predicate Progress(al: ActionList, p: nat, args: nat -> Int32, k: nat, recent: seq<byte>, x: int, o: int,
                           items: seq<Item>, done: seq<Item>, s: nat) {
    && Listing(al, p, args, k, recent)
    && items == done + Record(al, p, args, k, recent, x, o)
    && LastAt(items) < s * BIAS + BIAS
  }

  /** The next action of a put in progress. */
  lemma ProgressStep(al: ActionList, p: nat, args: nat -> Int32, k: nat, recent: seq<byte>, x: int, o: int,
                     items: seq<Item>, done: seq<Item>, s: nat)
    requires Progress(al, p, args, k, recent, x, o, items, done, s)
    ensures p < |al| && |done| < |items|
    ensures var it := Pick(al, p, args, k, x, o);
            && it == items[|done|] && it.at == x && it.est == o && !it.a.Start? && !it.a.Unknown?
            && it.p == p && x + it.a.Slots() < s * BIAS + BIAS
            && (it.a.Terminal() ==> items == done + [it])
            && (!it.a.Terminal() ==> Progress(al, After(it), args, NextArg(it, k), NextRecent(it, recent),
                                              x + it.a.Slots(), o + it.Grows(), items, done + [it], s))
  {
    RecordStep(al, p, args, k, recent, x, o);
    RecordEnds(al, p, args, k, recent, x, o);
    var it := Pick(al, p, args, k, x, o);
    assert items[|done|] == it;
    if !it.a.Terminal() {
      assert done + ([it] + Record(al, After(it), args, NextArg(it, k), NextRecent(it, recent), x + it.a.Slots(),
                                   o + it.Grows()))
          == done + [it] + Record(al, After(it), args, NextArg(it, k), NextRecent(it, recent), x + it.a.Slots(),
                                  o + it.Grows());
    }
  }

  lemma StartReaches(L: seq<Item>, it: Item)
    requires it.a.Start?
    ensures Reached(L + [it], it.p, [])
  {
  }

  /** The outcome of the action loop is that of the whole put. */
  lemma WholeOutcome(first: Item, items: seq<Item>, log0: seq<seq<Item>>, log: seq<seq<Item>>, hist0: seq<Event>,
                     hist: seq<Event>, s: nat, status: int, cur0: nat, cur: nat, lim: Limits)
    requires first.a.Start? && s < |log0| && Complete(log0) && Rooted(log0) && cur0 < |log0|
    requires log0[0] == [] ==> s == 0
    requires Outcome(items, Appended(log0, s, first), log, hist0, hist, s, status, cur0, cur, lim)
    ensures Outcome([first] + items, log0, log, hist0, hist, s, status, cur0, cur, lim)
    ensures |log| == |log0| && Check([first] + items, hist0, lim) == status
    ensures status == S_OK ==> Complete(log) && Rooted(log) && log[0] != [] && cur < |log|
    ensures status == S_OK ==> log == log0[s := log0[s] + ([first] + items)]
  {
    assert !Refused(first, hist0, lim) && hist0 + EventOf(first) == hist0;
    assert ([first] + items)[1..] == items;
    EventsCons(first, items);
    if status == S_OK {
      assert log0[s] + [first] + items == log0[s] + ([first] + items);
      assert log == log0[s := log0[s] + ([first] + items)];
    }
  }

  /** A label slot is negative just when a backward reference finds a definition. */
  lemma SlotFinds(al: ActionList, st: Store, tr: Trail, key: Key)
    requires Inv(al, st, tr) && Known(st.lg, st.pc, key)
    ensures Slot(st.lg, st.pc, key) < 0 <==> Visible(tr.hist, key)
  {
    assert key in tr.chains;
    assert SlotOk(tr.hist, Slot(st.lg, st.pc, key), key);
    SlotShows(tr.hist, |tr.hist|, key);
  }

  /** It is positive just when some reference waits for a definition. */
  lemma SlotWaits(al: ActionList, st: Store, tr: Trail, key: Key)
    requires Inv(al, st, tr) && Known(st.lg, st.pc, key)
    ensures Slot(st.lg, st.pc, key) > 0 <==> Unresolved(tr.hist, key)
  {
    SlotUnresolved(st.lg, st.pc, st.cells, tr.chains, tr.hist, key);
  }

  /** What linking reports: the first pc label from i on that is referred to and never defined. */
  ghost function LinkStatus(hist: seq<Event>, i: nat, npc: nat): int
    decreases npc - i
  {
    if i >= npc then S_OK
    else if Unresolved(hist, PC(i)) then S_UNDEF_PC + i
    else LinkStatus(hist, i + 1, npc)
  }

  /** What a step check reports: the first local label from i on that is referred to and not yet
      defined, or that another section is current than the one asked for. */
  ghost function StepStatus(hist: seq<Event>, i: nat, cur: nat, secmatch: int): int
    decreases 10 - i
  {
    if i >= 10 then (if secmatch >= 0 && cur != secmatch then S_MATCH_SEC + cur else S_OK)
    else if Unresolved(hist, LG(i)) then S_UNDEF_L + i
    else StepStatus(hist, i + 1, cur, secmatch)
  }

  lemma NothingMarked(cells: map<int, int>, chains: map<Key, seq<int>>)
    ensures Marked(cells, cells, chains, 10)
  {
  }

  lemma InvMatched(al: ActionList, st: Store, tr: Trail)
    requires Inv(al, st, tr)
    ensures Matched(tr.log, tr.links, tr.hist)
    ensures forall e :: e in tr.hist && e.Def? && e.key.LG? ==> e.key.i < |st.lg|
  {
    forall e | e in tr.hist && e.Def? && e.key.LG? ensures e.key.i < |st.lg| {
      assert e.key in tr.chains;
    }
  }

  lemma InvSlots(al: ActionList, st: Store, tr: Trail)
    requires Inv(al, st, tr)
    ensures PositionsPositive(tr.hist)
    ensures forall key :: Known(st.lg, st.pc, key) ==> SlotOk(tr.hist, Slot(st.lg, st.pc, key), key)
  {
    hide SlotOk;
    forall key | Known(st.lg, st.pc, key) ensures SlotOk(tr.hist, Slot(st.lg, st.pc, key), key) {
      assert key in tr.chains;
    }
  }

  predicate IsGlobalLabel(it: Item, idx: int) {
    it.a.LabelLG? && it.a.n == idx
  }

  ghost predicate DefinesGlobal(log: seq<seq<Item>>, idx: int) {
    exists s, k :: 0 <= s < |log| && 0 <= k < |log[s]| && IsGlobalLabel(log[s][k], idx)
  }

  lemma OneByte(b: byte)
    ensures LE(b, 1) == [b]
  {
  }

  /** Two global tables agree on every global the unit does not define. */
  ghost predicate GlobalsLike(log: seq<seq<Item>>, g0: seq<int>, g: seq<int>) {
    |g| == |g0| && forall idx :: 0 <= idx < |g| && !DefinesGlobal(log, idx) ==> g[idx] == g0[idx]
  }

  /** Pass 3 changes a global only at its label, to the label's final address. */
  ghost predicate GlobalsStep(log: seq<seq<Item>>, prog: seq<Cmd>, base: int, s: nat, k: nat, g: seq<int>, g': seq<int>)
    requires s < |log| && k < |log[s]|
  {
    var a := log[s][k].a;
    if a.LabelLG? && a.n >= 10 then a.n < |g| && g' == g[a.n := base + LabelAt(prog, First(log, s) + k)] else g' == g
  }

  /** A global label among the first i items. */
  ghost predicate IsLabelBefore(log: seq<seq<Item>>, s: nat, k: nat, i: nat) {
    s < |log| && k < |log[s]| && First(log, s) + k < i && log[s][k].a.LabelLG? && log[s][k].a.n >= 10
  }

  ghost predicate AddressOfLabel(log: seq<seq<Item>>, prog: seq<Cmd>, base: int, idx: int, i: nat, address: int) {
    exists s: nat, k: nat ::
      IsLabelBefore(log, s, k, i) && log[s][k].a.n == idx && address == base + LabelAt(prog, First(log, s) + k)
  }

  /** Every global that one of the first i items defines holds the final address of such a label. */
  ghost predicate GlobalsAt(log: seq<seq<Item>>, prog: seq<Cmd>, base: int, g: seq<int>, i: nat) {
    forall s: nat, k: nat {:trigger IsLabelBefore(log, s, k, i)} ::
      IsLabelBefore(log, s, k, i) ==>
        log[s][k].a.n < |g| && AddressOfLabel(log, prog, base, log[s][k].a.n, i, g[log[s][k].a.n])
  }

  lemma GlobalsAdvance(log: seq<seq<Item>>, prog: seq<Cmd>, base: int, g: seq<int>, g': seq<int>, s: nat, k: nat)
    requires s < |log| && k < |log[s]| && GlobalsAt(log, prog, base, g, First(log, s) + k)
    requires GlobalsStep(log, prog, base, s, k, g, g')
    ensures GlobalsAt(log, prog, base, g', First(log, s) + k + 1)
  {
    hide Final;
    var i := First(log, s) + k;
    var i' := i + 1;
    forall t: nat, j: nat | IsLabelBefore(log, t, j, i')
      ensures log[t][j].a.n < |g'| && AddressOfLabel(log, prog, base, log[t][j].a.n, i', g'[log[t][j].a.n])
    {
      var idx := log[t][j].a.n;
      if First(log, t) + j == i { SameIndex(log, s, k, t, j); } else { assert IsLabelBefore(log, t, j, i); }
      if log[s][k].a.LabelLG? && log[s][k].a.n == idx {
        assert IsLabelBefore(log, s, k, i');
      } else {
        var t': nat, j': nat :| IsLabelBefore(log, t', j', i) && log[t'][j'].a.n == idx
                                && g[idx] == base + LabelAt(prog, First(log, t') + j');
        assert IsLabelBefore(log, t', j', i');
      }
    }
  }

  lemma GlobalsSame(log: seq<seq<Item>>, prog: seq<Cmd>, base: int, g: seq<int>, g': seq<int>, s: nat, k: nat)
    requires s < |log| && k < |log[s]| && GlobalsAt(log, prog, base, g, First(log, s) + k)
    requires log[s][k].a.Start? && g' == g
    ensures GlobalsAt(log, prog, base, g', First(log, s) + k + 1)
  {
    GlobalsAdvance(log, prog, base, g, g', s, k);
  }

  /** A put of `items` into section s has logged the first of them, `done`, so far. */
  ghost predicate Sofar(log0: seq<seq<Item>>, log: seq<seq<Item>>, hist0: seq<Event>, hist: seq<Event>, s: nat,
                        items: seq<Item>, done: seq<Item>, lim: Limits) {
    && s < |log0| == lim.sections && log == log0[s := log0[s] + done]
    && hist == hist0 + Events(done)
    && done <= items
    && Check(items, hist0, lim) == Check(items[|done|..], hist, lim)
  }

  lemma SofarStart(log: seq<seq<Item>>, hist: seq<Event>, s: nat, items: seq<Item>, lim: Limits)
    requires s < |log| == lim.sections
    ensures Sofar(log, log, hist, hist, s, items, [], lim)
  {
    assert log[s] + [] == log[s];
    assert hist + Events([]) == hist;
    assert items[0..] == items;
  }

  /** The next item decides the put's status, or joins those that are logged. */
  lemma SofarStep(log0: seq<seq<Item>>, log: seq<seq<Item>>, hist0: seq<Event>, hist: seq<Event>, s: nat,
                  items: seq<Item>, done: seq<Item>, it: Item, lim: Limits)
    requires Sofar(log0, log, hist0, hist, s, items, done, lim) && |done| < |items| && it == items[|done|]
    ensures |log| == |log0| && s < |log|
    ensures Refused(it, hist, lim) ==> Check(items, hist0, lim) == ErrorCode(it)
    ensures !Refused(it, hist, lim) ==>
              Sofar(log0, Appended(log, s, it), hist0, hist + EventOf(it), s, items, done + [it], lim)
  {
    hide Refused;
    hide ErrorCode;
    hide Events;
    hide EventOf;
    EventsAppend(done, it);
    var rest := items[|done|..];
    assert rest[0] == it && rest[1..] == items[|done + [it]|..];
    if !Refused(it, hist, lim) {
      assert log0[s] + done + [it] == log0[s] + (done + [it]);
      assert hist0 + (Events(done) + EventOf(it)) == hist + EventOf(it);
      assert done + [it] <= items;
    }
  }

  /** How the action loop ends. */
  lemma SofarEnds(log0: seq<seq<Item>>, log: seq<seq<Item>>, hist0: seq<Event>, hist: seq<Event>, s: nat,
                  items: seq<Item>, cur0: nat, cur: nat, lim: Limits)
    requires Sofar(log0, log, hist0, hist, s, items, items, lim)
    requires |items| > 0 && items[|items|-1].a.Terminal()
    requires cur == if items[|items|-1].a.Section? then items[|items|-1].a.n else cur0
    requires items[|items|-1].a.Section? ==> cur < |log0|
    ensures Outcome(items, log0, log, hist0, hist, s, S_OK, cur0, cur, lim)
  {
    assert items[|items|..] == [];
  }

  lemma FreshLabels(lg: seq<int>, pc: seq<int>, chains: map<Key, seq<int>>)
    requires (forall i :: 0 <= i < |lg| ==> lg[i] == 0) && (forall i :: 0 <= i < |pc| ==> pc[i] == 0)
    requires forall key :: key in chains <==> Known(lg, pc, key)
    requires forall key :: key in chains ==> chains[key] == []
    ensures LabelsOk(lg, pc, map[], chains, [])
  {
  }

  lemma FreshStore(al: ActionList, pos: seq<int>, ofs: seq<int>, log: seq<seq<Item>>)
    requires |pos| == |ofs| == |log|
    requires forall s :: 0 <= s < |log| ==> pos[s] == s * BIAS && ofs[s] == 0 && log[s] == []
    ensures StoreOk(al, pos, ofs, map[], {}, log)
  {
    forall s | 0 <= s < |log| ensures SectionOk(al, s, pos[s], ofs[s], log[s]) {
    }
  }

  lemma MatchedReset(log: seq<seq<Item>>, links: set<int>, hist: seq<Event>)
    requires Matched(log, links, hist)
    ensures Matched(log, links, hist + [Reset])
  {
    forall e | e in hist + [Reset] && !e.Reset? ensures exists s: nat, k: nat :: EventItem(log, s, k, e) {
      assert e in hist;
    }
  }

  /** Executing the branch at command i leads to the given offset. */
  predicate LandsOn(prog: seq<Cmd>, code: seq<byte>, i: nat, offset: int) {
    i < |prog| &&
    var end, width := Final(prog, i + 1), if Short(prog, i) then 1 else 4;
    width <= end <= |code| && end + Signed(code[end - width..end]) == offset
  }

  /** Executing the branch of item k of section s leads to the label of the given definition. */
  ghost predicate Reaches(log: seq<seq<Item>>, prog: seq<Cmd>, base: int, code: seq<byte>, s: nat, k: nat, e: Event)
    requires s < |log|
  {
    exists s': nat, k': nat ::
      && EventItem(log, s', k', e) && First(log, s') + k' <= |prog|
      && LandsOn(prog, code, First(log, s) + k, |Code(prog, base, First(log, s') + k')|)
  }

  /** The command of a reference is encoded for the given offset. */
  ghost predicate LeadsTo(prog: seq<Cmd>, i: nat, it: Item, offset: int) {
    && i < |prog|
    && if it.a.IsRel() then prog[i].Relative() && Aim(prog, i) == offset
       else prog[i] == StrayAddress(offset) || (prog[i].Address? && LabelAt(prog, prog[i].target) == offset)
  }

  class Dasm {
    const al: ActionList
    var lg: seq<int>
    var pc: seq<int>
    var globals: seq<int>
    var pos: seq<int>
    var ofs: seq<int>
    var cells: map<int, int>
    var cur: nat
    var codesize: int
    var status: int
    ghost var tr: Trail
    ghost var cells0: map<int, int>
    ghost var globals0: seq<int>
    ghost var prog: seq<Cmd>

    ghost function St(): Store
      reads this
    {
      Store(lg, pc, pos, ofs, cells)
    }

    ghost predicate Valid()
      reads this
    {
      && |pos| == |ofs| == |tr.log| && cur < |tr.log| && |globals| == |lg|
      && Inv(al, St(), tr) && Complete(tr.log)
      && Rooted(tr.log) && (tr.log[0] == [] ==> cur == 0)
      && LogInRange(tr.log, Lim())
    }

    ghost function Lim(): Limits
      reads this
    {
      Limits(|tr.log|, |lg|, |pc|)
    }

    /** The state in the middle of a put into section s that has reached position x and offset o. */
    ghost predicate Mid(s: nat, x: int, o: int)
      reads this
    {
      && |pos| == |ofs| == |tr.log| && s < |tr.log| && |globals| == |lg|
      && Inv(al, Store(lg, pc, pos[s := x], ofs[s := o], cells), tr)
    }

    /** Overwrites every link of a chain with v. */
    method Collapse(head: int, v: int, ghost ch: seq<int>)
      requires ChainOk(cells, head, ch)
      modifies `cells
      ensures cells == Collapsed(old(cells), ch, v)
    {
      var n := head;
      ghost var i := 0;
      assert Collapsed(cells, ch[..0], v) == cells;
      while n > 0
        invariant 0 <= i <= |ch|
        invariant n > 0 ==> i < |ch| && n == ch[i]
        invariant n <= 0 ==> i == |ch|
        invariant cells == Collapsed(old(cells), ch[..i], v)
        decreases |ch| - i
      {
        assert n !in ch[..i];
        assert ch[..i+1] == ch[..i] + [n];
        var next := cells[n];
        assert next == old(cells)[ch[i]] == if i + 1 < |ch| then ch[i+1] else 0;
        cells := cells[n := v];
        n := next;
        i := i + 1;
        assert cells == Collapsed(old(cells), ch[..i], v);
      }
      assert ch[..i] == ch;
    }

    /** Stores the position of an existing label, or links the reference into the label's chain. */
    method StoreRef(s: nat, it: Item, v: int)
      requires Mid(s, it.at, it.est) && it.at > 0
      requires it.a.IsRef() && it.KeyOk() && Known(lg, pc, it.Label()) && v == Slot(lg, pc, it.Label())
      requires it.Forward() || v < 0 || !Numbered(it.Label())
      requires NextItem(al, Store(lg, pc, pos[s := it.at], ofs[s := it.est], cells), tr, s, it)
      modifies `lg, `pc, `cells, `tr
      ensures Mid(s, it.at + it.a.Slots(), it.est + 4)
      ensures tr.log == Appended(old(tr.log), s, it) && tr.hist == old(tr.hist) + [it.LabelEvent()]
      ensures |lg| == old(|lg|) && |pc| == old(|pc|) && |tr.log| == old(|tr.log|)
    {
      hide StoreOk;
      hide LabelsOk;
      hide Matched;
      hide LogOk;
      ghost var st := Store(lg, pc, pos[s := it.at], ofs[s := it.est], cells);
      var key := it.Label();
      ChainsKnown(al, st, tr);
      assert pos[s := it.at][s := it.at + it.a.Slots()] == pos[s := it.at + it.a.Slots()];
      assert ofs[s := it.est][s := it.est + 4] == ofs[s := it.est + 4];
      if !it.Forward() && v < 0 {
        InvResolved(al, st, tr, s, it);
        cells := cells[it.at := -v];
        tr := tr.(log := Appended(tr.log, s, it), links := tr.links + {it.at}, hist := tr.hist + [it.LabelEvent()]);
      } else {
        InvPending(al, st, tr, s, it);
        cells := cells[it.at := if v < 0 then 0 else v];
        if key.LG? { lg := lg[key.i := it.at]; } else { pc := pc[key.i := it.at]; }
        tr := Trail(Appended(tr.log, s, it), tr.links + {it.at}, tr.chains[key := [it.at] + tr.chains[key]],
                    tr.hist + [it.LabelEvent()]);
      }
      if it.a.IsRel() {
        cells := cells[it.at + 1 := it.est + 4];
      }
    }

    /** Records a reference at it.at; refuses it when the label number is out of range or a
        backward local label does not exist. */
    method PutRef(s: nat, it: Item) returns (ok: bool)
      requires Mid(s, it.at, it.est) && it.at > 0
      requires it.a.IsRef()
      requires it.KeyOk() ==> NextItem(al, Store(lg, pc, pos[s := it.at], ofs[s := it.est], cells), tr, s, it)
      modifies `lg, `pc, `cells, `tr
      ensures ok <==> !Refused(it, old(tr.hist), Lim())
      ensures ok ==> it.KeyOk()
      ensures ok ==> Mid(s, it.at + it.a.Slots(), it.est + 4)
      ensures ok ==> tr.log == Appended(old(tr.log), s, it) && tr.hist == old(tr.hist) + [it.LabelEvent()]
      ensures |lg| == old(|lg|) && |pc| == old(|pc|) && |tr.log| == old(|tr.log|)
    {
      hide StoreOk;
      hide LabelsOk;
      hide Matched;
      hide LogOk;
      var v: int;
      if it.a.RelPC? || it.a.AddrPC? {
        if it.n < 0 || it.n >= |pc| { return false; }
        v := pc[it.n];
      } else if it.a.n <= 246 {
        if it.a.n < 10 { SlotFinds(al, Store(lg, pc, pos[s := it.at], ofs[s := it.est], cells), tr, LG(it.a.n)); }
        if !(it.a.n >= 10 || lg[it.a.n] < 0) { return false; }
        if it.a.n >= |lg| { return false; }
        v := lg[it.a.n];
      } else {
        v := lg[it.a.n - 246];
      }
      StoreRef(s, it, v);
      ok := true;
    }

    /** Defines a label at it.at and resolves the references that waited for it. */
    method PutLabel(s: nat, it: Item) returns (ok: bool)
      requires Mid(s, it.at, it.est) && it.at > 0
      requires it.a.IsLabel()
      requires it.KeyOk() ==> NextItem(al, Store(lg, pc, pos[s := it.at], ofs[s := it.est], cells), tr, s, it)
      modifies `lg, `pc, `cells, `tr
      ensures ok <==> !Refused(it, old(tr.hist), Lim())
      ensures ok ==> it.KeyOk() && Mid(s, it.at + 1, it.est)
      ensures ok ==> tr.log == Appended(old(tr.log), s, it) && tr.hist == old(tr.hist) + [it.LabelEvent()]
      ensures |lg| == old(|lg|) && |pc| == old(|pc|) && |tr.log| == old(|tr.log|)
    {
      hide StoreOk;
      hide LabelsOk;
      hide Matched;
      hide LogOk;
      var v: int;
      if it.a.LabelLG? {
        if it.a.n >= |lg| { return false; }
        v := lg[it.a.n];
      } else {
        if it.n < 0 || it.n >= |pc| { return false; }
        v := pc[it.n];
      }
      var key := it.Label();
      ghost var st := Store(lg, pc, pos[s := it.at], ofs[s := it.est], cells);
      ChainsKnown(al, st, tr);
      InvDefined(al, st, tr, s, it);
      Collapse(v, it.at, tr.chains[key]);
      if key.LG? { lg := lg[key.i := -it.at]; } else { pc := pc[key.i := -it.at]; }
      cells := cells[it.at := it.est];
      tr := Trail(Appended(tr.log, s, it), tr.links, tr.chains[key := []], tr.hist + [it.LabelEvent()]);
      ok := true;
      assert pos[s := it.at][s := it.at + 1] == pos[s := it.at + 1];
      assert ofs[s := it.est][s := it.est + 0] == ofs[s := it.est];
    }

    /** Records an action that has no label: at most one buffer position, holding v. */
    method PutPlain(s: nat, it: Item, v: int)
      requires Mid(s, it.at, it.est) && !it.HasEvent() && it.a.Slots() <= 1 && !it.a.Unknown?
      requires NextItem(al, Store(lg, pc, pos[s := it.at], ofs[s := it.est], cells), tr, s, it)
      requires it.a.Start? ==> v == it.p
      requires it.a.Align? ==> v == it.est + it.a.mask
      requires !it.a.Start? && !it.a.Align? ==> v == it.n
      modifies `cells, `tr
      ensures Mid(s, it.at + it.a.Slots(), it.est + it.Grows())
      ensures tr == old(tr).(log := Appended(old(tr.log), s, it))
    {
      hide LabelsOk;
      hide Matched;
      hide LogOk;
      ghost var st := Store(lg, pc, pos[s := it.at], ofs[s := it.est], cells);
      SectionStarts(al, st.pos, st.ofs, st.cells, tr.links, tr.log, s);
      hide StoreOk;
      InvPlain(al, st, tr, s, it, v);
      if it.a.Slots() == 1 {
        cells := cells[it.at := v];
      }
      tr := tr.(log := Appended(tr.log, s, it));
      assert pos[s := it.at][s := it.at + it.a.Slots()] == pos[s := it.at + it.a.Slots()];
      assert ofs[s := it.est][s := it.est + it.Grows()] == ofs[s := it.est + it.Grows()];
    }

    /** One action of pass 1; the result is the status it would set. */
    method PutItem(s: nat, it: Item) returns (code: int)
      requires Mid(s, it.at, it.est) && it.at > 0 && !it.a.Start? && !it.a.Unknown?
      requires it.KeyOk() ==> NextItem(al, Store(lg, pc, pos[s := it.at], ofs[s := it.est], cells), tr, s, it)
      modifies `lg, `pc, `cells, `tr
      ensures code == if Refused(it, old(tr.hist), Lim()) then ErrorCode(it) else S_OK
      ensures code == S_OK ==>
                && (it.a.Section? ==> it.a.n < |tr.log|)
                && it.KeyOk() && Mid(s, it.at + it.a.Slots(), it.est + it.Grows())
                && tr.log == Appended(old(tr.log), s, it)
                && tr.hist == old(tr.hist) + EventOf(it)
      ensures |lg| == old(|lg|) && |pc| == old(|pc|) && |tr.log| == old(|tr.log|)
    {
      hide Inv;
      hide NextItem;
      var a := it.a;
      code := S_OK;
      if a.IsRef() {
        var ok := PutRef(s, it);
        if !ok { code := if a.RelPC? || a.AddrPC? then S_RANGE_PC + it.p else S_RANGE_LG + it.p + 1; }
      } else if a.IsLabel() {
        var ok := PutLabel(s, it);
        if !ok { code := if a.LabelPC? then S_RANGE_PC + it.p else S_RANGE_LG + it.p + 1; }
      } else if (a.ImmS? && !(-128 <= it.n <= 127)) || (a.ImmB? && !(0 <= it.n <= 255))
                || (a.ImmW? && !(0 <= it.n <= 65535)) {
        code := S_RANGE_I + it.p;
      } else if a.Section? && a.n >= |pos| {
        code := S_RANGE_SEC + it.p;
      } else {
        PutPlain(s, it, if a.Align? then it.est + a.mask else it.n);
      }
    }

    lemma MidPicks(s: nat, x: int, o: int, p: nat, args: nat -> Int32, k: nat, recent: seq<byte>,
                   items: seq<Item>, done: seq<Item>)
      requires Mid(s, x, o) && Reached(tr.log[s], p, recent)
      requires Progress(al, p, args, k, recent, x, o, items, done, s) && p < |al|
      ensures var it := Pick(al, p, args, k, x, o);
              && (it.KeyOk() ==> NextItem(al, Store(lg, pc, pos[s := x], ofs[s := o], cells), tr, s, it))
              && (!it.a.Terminal() ==> Reached(tr.log[s] + [it], After(it), NextRecent(it, recent)))
    {
      ProgressStep(al, p, args, k, recent, x, o, items, done, s);
      Picks(al, Store(lg, pc, pos[s := x], ofs[s := o], cells), tr, s, p, args, k, recent);
    }

    /** The action loop of pass 1, from p on; the position and offset stay local until it ends. */
    method PutActions(s: nat, start: nat, args: nat -> Int32, x0: int, o0: int, ghost items: seq<Item>)
      returns (x: int, o: int)
      requires Mid(s, x0, o0) && x0 > 0 && status == S_OK
      requires Progress(al, start, args, 0, [], x0, o0, items, [], s)
      requires Reached(tr.log[s], start, [])
      modifies `lg, `pc, `cells, `cur, `status, `tr
      ensures |lg| == old(|lg|) && |pc| == old(|pc|) && |tr.log| == old(|tr.log|)
      ensures Outcome(items, old(tr.log), tr.log, old(tr.hist), tr.hist, s, status, old(cur), cur, Lim())
      ensures status == S_OK ==> Mid(s, x, o)
    {
      hide Inv;
      hide NextItem;
      hide Progress;
      hide Pick;
      hide Reached;
      hide Refused;
      hide Check;
      hide ErrorCode;
      hide Sofar;
      var p, k := start, 0;
      x, o := x0, o0;
      ghost var log0 := tr.log;
      ghost var done: seq<Item> := [];
      ghost var recent: seq<byte> := [];
      SofarStart(log0, tr.hist, s, items, Lim());
      while true
        invariant Mid(s, x, o) && cur == old(cur) && status == S_OK && x > 0
        invariant Sofar(log0, tr.log, old(tr.hist), tr.hist, s, items, done, Lim()) && |tr.log| == |log0|
        invariant Progress(al, p, args, k, recent, x, o, items, done, s)
        invariant Reached(tr.log[s], p, recent)
        invariant |lg| == old(|lg|) && |pc| == old(|pc|)
        decreases |al| - p
      {
        ProgressStep(al, p, args, k, recent, x, o, items, done, s);
        var it := Pick(al, p, args, k, x, o);
        MidPicks(s, x, o, p, args, k, recent, items, done);
        SofarStep(log0, tr.log, old(tr.hist), tr.hist, s, items, done, it, Lim());
        var code := PutItem(s, it);
        if code != S_OK {
          status := code;
          return;
        }
        done := done + [it];
        x, o := x + it.a.Slots(), o + it.Grows();
        if it.a.Terminal() {
          if it.a.Section? { cur := it.a.n; }
          SofarEnds(log0, tr.log, old(tr.hist), tr.hist, s, items, old(cur), cur, Lim());
          return;
        }
        recent := NextRecent(it, recent);
        p := p + it.a.Length();
        k := NextArg(it, k);
      }
    }

    /** The first position of a put holds the place of its actions. */
    method PutStart(s: nat, start: nat, args: nat -> Int32, ghost items: seq<Item>)
      requires Valid() && s == cur && Listing(al, start, args, 0, [])
      requires items == Record(al, start, args, 0, [], pos[s] + 1, ofs[s]) && |items| > 0
      requires LastAt(items) < s * BIAS + BIAS
      modifies `cells, `tr
      ensures Mid(s, pos[s] + 1, ofs[s]) && pos[s] >= 0
      ensures tr == old(tr).(log := Appended(old(tr.log), s, Item(start, Start, 0, pos[s], ofs[s])))
      ensures Reached(tr.log[s], start, []) && Progress(al, start, args, 0, [], pos[s] + 1, ofs[s], items, [], s)
    {
      hide Inv;
      hide NextItem;
      hide Listing;
      hide Record;
      hide Reached;
      hide Complete;
      var first := Item(start, Start, 0, pos[s], ofs[s]);
      RecordEnds(al, start, args, 0, [], pos[s] + 1, ofs[s]);
      RecordStep(al, start, args, 0, [], pos[s] + 1, ofs[s]);
      StartFits(al, St(), tr, s, start);
      assert pos[s := pos[s]] == pos && ofs[s := ofs[s]] == ofs;
      StartReaches(tr.log[s], first);
      assert items == [] + items;
      PutPlain(s, first, start);
    }

    /** Pass 1.  Either everything the action list prescribes has been recorded, or the status
        says which check failed. */
    method Put(start: nat, args: nat -> Int32)
      requires status == S_OK && Valid()
      requires Listing(al, start, args, 0, [])
      requires LastAt(Recorded(al, start, args, pos[cur], ofs[cur])) < cur * BIAS + BIAS
      modifies `lg, `pc, `pos, `ofs, `cells, `cur, `status, `tr
      ensures |lg| == old(|lg|) && |pc| == old(|pc|)
      ensures status == S_OK ==> Valid()
      ensures Outcome(Recorded(al, start, args, old(pos[cur]), old(ofs[cur])), old(tr.log), tr.log,
                      old(tr.hist), tr.hist, old(cur), status, old(cur), cur, Lim())
    {
      hide LogInRange;
      hide Check;
      hide Inv;
      hide Listing;
      hide Record;
      hide Reached;
      hide Progress;
      hide Complete;
      hide Outcome;
      var s := cur;
      var x, o := pos[s], ofs[s];
      ghost var log0 := tr.log;
      ghost var items := Record(al, start, args, 0, [], x + 1, o);
      RecordEnds(al, start, args, 0, [], x + 1, o);
      assert Recorded(al, start, args, x, o) == [Item(start, Start, 0, x, o)] + items;
      PutStart(s, start, args, items);
      ghost var first := Item(start, Start, 0, x, o);
      x, o := PutActions(s, start, args, x + 1, o, items);
      WholeOutcome(first, items, log0, tr.log, old(tr.hist), tr.hist, s, status, s, cur, Lim());
      if status == S_OK {
        RecordArgs(al, start, args, 0, [], old(pos[s]) + 1, old(ofs[s]));
        PutInRange(log0, s, [first] + items, old(tr.hist), Lim());
      }
      if status == S_OK {
        pos := pos[s := x];
        ofs := ofs[s := o];
      }
    }

    // -------------------------------------------------------------- pass 2

    /** The buffers before linking, with the undefined globals marked. */
    ghost function St0(): Store
      reads this
    {
      Store(lg, pc, pos, ofs, cells0)
    }

    ghost predicate Prepared()
      reads this
    {
      && |pos| == |ofs| == |tr.log|
      && |globals0| == |globals| && Ready(al, St0(), tr.links, tr.log, |globals|)
      && prog == Program(al, tr.log, cells0, globals0)
      && WellFormed(prog)
    }

    /** Pass 2 stands before the k-th item of section s, at position x with accumulated offset o. */
    ghost predicate Linking(s: nat, k: nat, x: int, o: int)
      reads this
    {
      && Prepared()
      && s < |tr.log| && k <= |tr.log[s]|
      && First(tr.log, s) + k <= |prog|
      && LinkInv(tr.log, cells0, cells, prog, First(tr.log, s) + k)
      && x == (if k < |tr.log[s]| then tr.log[s][k].at else pos[s])
      && o == Final(prog, First(tr.log, s) + k) - EstAt(tr.log[s], k)
    }

    /** The distance from the end of the long form at x to the label at lpos, as pass 2 computes it. */
    method Distance(s: nat, x: int, o: int, lpos: int) returns (lofs: int)
      requires x + 1 in cells && lpos in cells && s < |ofs| && lpos / BIAS < |ofs|
      requires lpos > x ==> s <= lpos / BIAS
      ensures lofs == (if lpos > x then cells[lpos] + SectionBase(ofs, lpos / BIAS) - SectionBase(ofs, s)
                       else cells[lpos] - o) - cells[x+1]
    {
      lofs := cells[lpos];
      if lpos > x {
        for i := s to lpos / BIAS
          invariant lofs == cells[lpos] + SectionBase(ofs, i) - SectionBase(ofs, s)
        {
          lofs := lofs + ofs[i];
        }
      } else {
        lofs := lofs - o;
      }
      lofs := lofs - cells[x+1];
    }

    /** Pass 2 at a relative reference: the number of bytes to save, 0 for the long form. */
    method Shrink(s: nat, p: nat, x: int, o: int, ghost k: nat) returns (shrink: int)
      requires Linking(s, k, x, o) && k < |tr.log[s]| && tr.log[s][k].a.IsRel() && p == tr.log[s][k].p
      ensures First(tr.log, s) + k < |prog| && shrink == ShrinkOf(prog, First(tr.log, s) + k)
    {
      hide Ready;
      hide Program;
      hide LinkInv;
      hide WellFormed;
      hide CellOk;
      ghost var i := First(tr.log, s) + k;
      WalkStep(al, St0(), tr.links, tr.log, |globals|, s, k);
      RefCells(al, St0(), tr.links, tr.log, |globals|, prog, cells, i, s, k);
      ItemAt(al, St0(), tr.links, tr.log, |globals|, globals0, s, k);
      var op := al[p-1];
      shrink := Saving(op);
      if shrink != 0 {
        var lpos := cells[x];
        if lpos < 0 {
          shrink := 0;
        } else {
          ghost var s' := CellDistance(al, St0(), tr.links, tr.log, globals0, prog, cells, s, k);
          var lofs := Distance(s, x, o, lpos);
          if !(-128 - shrink <= lofs <= 127) {
            shrink := 0;
          }
        }
      }
    }

    method LinkRel(s: nat, p: nat, x: int, o: int, ghost k: nat) returns (o': int)
      requires Linking(s, k, x, o) && k < |tr.log[s]| && tr.log[s][k].a.IsRel() && p == tr.log[s][k].p
      modifies `cells
      ensures Linking(s, k + 1, x + 2, o')
    {
      hide Ready;
      hide Program;
      hide LinkInv;
      hide WellFormed;
      hide CellOk;
      ghost var i := First(tr.log, s) + k;
      var shrink := Shrink(s, p, x, o, k);
      WalkStep(al, St0(), tr.links, tr.log, |globals|, s, k);
      RefCells(al, St0(), tr.links, tr.log, |globals|, prog, cells, i, s, k);
      ItemAt(al, St0(), tr.links, tr.log, |globals|, globals0, s, k);
      assert Final(prog, i + 1) == Final(prog, i) + 4 - shrink;
      o' := o - shrink;
      ghost var before := cells;
      cells := cells[x + 1 := shrink];
      LinkStep(al, St0(), tr.links, tr.log, |globals|, prog, before, cells, s, k);
    }

    method LinkAlign(s: nat, x: int, o: int, mask: byte, ghost k: nat) returns (o': int)
      requires Linking(s, k, x, o) && k < |tr.log[s]| && tr.log[s][k].a == Align(mask)
      ensures Linking(s, k + 1, x + 1, o')
    {
      hide Ready;
      hide Program;
      hide LinkInv;
      hide WellFormed;
      hide CellOk;
      ghost var i := First(tr.log, s) + k;
      WalkStep(al, St0(), tr.links, tr.log, |globals|, s, k);
      AlignCell(al, St0(), tr.links, tr.log, globals0, prog, cells, i, s, k);
      // For a mask 2^n - 1, `& mask` on a non-negative number is the remainder modulo mask + 1.
      o' := o - (cells[x] + o) % (mask + 1);
      assert cells[x] + o == Final(prog, i) + mask;
      assert Final(prog, i + 1) == Final(prog, i) + mask - (Final(prog, i) + mask) % (mask + 1);
      LinkUnchanged(s, k);
    }

    lemma LinkUnchanged(s: nat, k: nat)
      requires Prepared() && s < |tr.log| && k < |tr.log[s]| && !tr.log[s][k].a.IsLabel() && !tr.log[s][k].a.IsRel()
      requires LinkInv(tr.log, cells0, cells, prog, First(tr.log, s) + k) && First(tr.log, s) + k < |prog|
      ensures LinkInv(tr.log, cells0, cells, prog, First(tr.log, s) + k + 1)
    {
      hide Ready;
      hide Program;
      hide Final;
      hide Short;
      ghost var i := First(tr.log, s) + k;
      assert CellAt(tr.log, cells0, cells, prog, i, s, k);
      LinkStep(al, St0(), tr.links, tr.log, |globals|, prog, cells, cells, s, k);
    }

    method LinkLabel(s: nat, x: int, o: int, ghost k: nat)
      requires Linking(s, k, x, o) && k < |tr.log[s]| && tr.log[s][k].a.IsLabel()
      modifies `cells
      ensures Linking(s, k + 1, x + 1, o)
    {
      hide Ready;
      hide Program;
      hide LinkInv;
      hide WellFormed;
      hide CellOk;
      ghost var i := First(tr.log, s) + k;
      WalkStep(al, St0(), tr.links, tr.log, |globals|, s, k);
      RefCells(al, St0(), tr.links, tr.log, |globals|, prog, cells, i, s, k);
      FixedSize(al, St0(), tr.links, tr.log, globals0, prog, s, k);
      ghost var before := cells;
      cells := cells[x := cells[x] + o];
      LinkStep(al, St0(), tr.links, tr.log, |globals|, prog, before, cells, s, k);
    }

    lemma LinkPlain(s: nat, k: nat, x: int, o: int)
      requires Linking(s, k, x, o) && k < |tr.log[s]|
      requires !tr.log[s][k].a.IsLabel() && !tr.log[s][k].a.IsRel() && !tr.log[s][k].a.Align?
      ensures Linking(s, k + 1, x + tr.log[s][k].a.Slots(), o)
    {
      hide Ready;
      hide Program;
      hide LinkInv;
      hide WellFormed;
      hide CellOk;
      hide Final;
      WalkStep(al, St0(), tr.links, tr.log, |globals|, s, k);
      FixedSize(al, St0(), tr.links, tr.log, globals0, prog, s, k);
      LinkUnchanged(s, k);
    }

    /** One action of pass 2. */
    method LinkAction(s: nat, p: nat, x: int, o: int, ghost k: nat) returns (p': nat, x': int, o': int, stop: bool)
      requires Linking(s, k, x, o) && k < |tr.log[s]| && !tr.log[s][k].a.Start? && p == tr.log[s][k].p
      modifies `cells
      ensures Linking(s, k + 1, x', o')
      ensures stop == tr.log[s][k].a.Terminal()
      ensures !stop ==> k + 1 < |tr.log[s]| && !tr.log[s][k+1].a.Start? && p' == tr.log[s][k+1].p
      ensures stop && k + 1 < |tr.log[s]| ==> tr.log[s][k+1].a.Start?
    {
      hide Ready;
      hide Program;
      hide LinkInv;
      hide WellFormed;
      hide CellOk;
      hide Final;
      WalkStep(al, St0(), tr.links, tr.log, |globals|, s, k);
      var a := Decode(al, p);
      p', x', o', stop := p + a.Length(), x + a.Slots(), o, a.Terminal();
      if a.IsRel() {
        o' := LinkRel(s, p, x, o, k);
      } else if a.Align? {
        o' := LinkAlign(s, x, o, a.mask, k);
      } else if a.IsLabel() {
        LinkLabel(s, x, o, k);
      } else {
        LinkPlain(s, k, x, o);
      }
    }

    /** Pass 2 over one section. */
    method LinkSection(s: nat, o: int) returns (o': int)
      requires Prepared() && s < |tr.log| && First(tr.log, s) <= |prog|
      requires LinkInv(tr.log, cells0, cells, prog, First(tr.log, s)) && o == Final(prog, First(tr.log, s))
      modifies `cells
      ensures First(tr.log, s + 1) <= |prog|
      ensures LinkInv(tr.log, cells0, cells, prog, First(tr.log, s + 1)) && o' == Final(prog, First(tr.log, s + 1))
    {
      hide Ready;
      hide LinkInv;
      hide WellFormed;
      hide Final;
      hide Program;
      hide CellOk;
      hide ItemOk;
      hide Decode;
      SectionBounds(al, St0(), tr.links, tr.log, |globals|, s);
      var x, lastpos := s * BIAS, pos[s];
      o' := o;
      ghost var k := 0;
      while x != lastpos
        invariant Linking(s, k, x, o')
        invariant k < |tr.log[s]| ==> tr.log[s][k].a.Start?
        decreases |tr.log[s]| - k
      {
        ghost var k0 := k;
        StartCell(al, St0(), tr.links, tr.log, |globals|, prog, cells, First(tr.log, s) + k, s, k);
        WalkStep(al, St0(), tr.links, tr.log, |globals|, s, k);
        LinkPlain(s, k, x, o');
        var p, stop := cells[x], false;
        x := x + 1;
        k := k + 1;
        while !stop
          invariant k0 < k && Linking(s, k, x, o')
          invariant !stop ==> k < |tr.log[s]| && !tr.log[s][k].a.Start? && p == tr.log[s][k].p
          invariant stop && k < |tr.log[s]| ==> tr.log[s][k].a.Start?
          decreases |tr.log[s]| - k, !stop
        {
          p, x, o', stop := LinkAction(s, p, x, o', k);
          k := k + 1;
        }
      }
      o' := o' + ofs[s];
    }

    /** Overwrites the chains of globals that this unit does not define with markers. */
    method MarkUndefined()
      requires Inv(al, St(), tr)
      modifies `cells
      ensures Marked(old(cells), cells, tr.chains, |lg|)
    {
      hide StoreOk;
      hide Matched;
      hide LabelsOk;
      hide Marked;
      hide ChainOk;
      assert Marked(cells, cells, tr.chains, 10) by { NothingMarked(cells, tr.chains); }
      for idx := 10 to |lg|
        invariant Marked(old(cells), cells, tr.chains, idx)
      {
        MarkStep(lg, pc, old(cells), cells, tr.chains, tr.hist, idx);
        Collapse(lg[idx], 0 - idx, tr.chains[LG(idx)]);
      }
    }

    /** Pass 2 has succeeded: labels hold final offsets, references their resolution and branches their choice. */
    ghost predicate Linked()
      reads this
    {
      && Prepared()
      && LinkInv(tr.log, cells0, cells, prog, |prog|)
      && codesize == Final(prog, |prog|)
      && RefsFinal() && SlotsFinal() && GlobalsKept()
    }

    /** The label slots as the history has left them. */
    ghost predicate SlotsFinal()
      reads `tr, `lg, `pc
    {
      && PositionsPositive(tr.hist) && LogInRange(tr.log, Limits(|tr.log|, |lg|, |pc|))
      && forall key :: Known(lg, pc, key) ==> SlotOk(tr.hist, Slot(lg, pc, key), key)
    }

    ghost predicate RefsFinal()
      reads `cells0, `tr, `globals0
    {
      && (forall e :: e in tr.hist && e.Def? && e.key.LG? ==> e.key.i < |globals0|)
      && (forall t {:trigger FinalRef(cells0, tr.hist, t)} ::
            0 <= t < |tr.hist| && tr.hist[t].Ref? ==> FinalRef(cells0, tr.hist, t))
      && Matched(tr.log, tr.links, tr.hist)
    }

    method Prepare()
      requires Valid() && forall i :: 0 <= i < |pc| ==> pc[i] <= 0
      modifies `cells, `cells0, `globals0, `prog
      ensures Prepared() && RefsFinal() && SlotsFinal() && LinkInv(tr.log, cells0, cells, prog, 0)
              && globals0 == globals
    {
      hide Inv;
      hide Ready;
      hide LinkInv;
      hide WellFormed;
      hide FinalRef;
      hide Marked;
      ghost var st := St();
      InvMatched(al, st, tr);
      InvSlots(al, st, tr);
      MarkUndefined();
      ReadyToLink(al, st, tr, cells);
      cells0 := cells;
      globals0 := globals;
      assert RefsFinal() by { hide Matched; hide Program; }
      prog := Program(al, tr.log, cells0, globals0);
      ProgramWellFormed(al, St0(), tr.links, tr.log, globals0);
      LinkStarts(tr.log, cells, prog);
    }

    method LinkSections() returns (o: int)
      requires Prepared() && LinkInv(tr.log, cells0, cells, prog, 0)
      modifies `cells
      ensures LinkInv(tr.log, cells0, cells, prog, |prog|) && o == Final(prog, |prog|)
    {
      hide Ready;
      hide LinkInv;
      hide WellFormed;
      assert Final(prog, 0) == 0;
      hide Final;
      o := 0;
      for s := 0 to |pos|
        invariant First(tr.log, s) <= |prog|
        invariant LinkInv(tr.log, cells0, cells, prog, First(tr.log, s)) && o == Final(prog, First(tr.log, s))
      {
        o := LinkSection(s, o);
      }
    }

    /** Pass 2.  It succeeds just when no reference to a pc label is left without a definition; local
        references that still wait do not matter to it. */
    method Link() returns (code: int, size: int)
      requires status == S_OK ==> Valid()
      modifies `cells, `codesize, `cells0, `globals0, `prog
      ensures status != S_OK ==> code == status && size == 0
      ensures status == S_OK ==> code == LinkStatus(tr.hist, 0, |pc|)
      ensures status == S_OK && code != S_OK ==> size == 0
      ensures status == S_OK && code == S_OK ==> Linked() && size == codesize && globals0 == globals
    {
      hide Inv;
      hide Ready;
      hide LinkInv;
      hide WellFormed;
      hide FinalRef;
      hide Final;
      hide Program;
      hide SlotOk;
      hide Unresolved;
      hide ItemInRange;
      hide LogInRange;
      size := 0;
      if status != S_OK { return status, 0; }
      for i := 0 to |pc|
        invariant forall j :: 0 <= j < i ==> pc[j] <= 0
        invariant LinkStatus(tr.hist, 0, |pc|) == LinkStatus(tr.hist, i, |pc|)
        invariant Valid()
      {
        SlotWaits(al, St(), tr, PC(i));
        if pc[i] > 0 { return S_UNDEF_PC + i, 0; }
      }
      Prepare();
      size := LinkSections();
      codesize := size;
      code := S_OK;
    }

    // -------------------------------------------------------------- pass 3

    /** Globals this unit does not define keep the address they had. */
    ghost predicate GlobalsKept()
      reads this
    {
      GlobalsLike(tr.log, globals0, globals)
    }

    /** Pass 3 stands before the k-th item of section s: everything before it is in the buffer. */
    ghost predicate Encoding(s: nat, k: nat, x: int, cp: nat, base: int, buffer: array<byte>)
      reads this, buffer
    {
      && Prepared() && RefsFinal() && GlobalsKept()
      && LinkInv(tr.log, cells0, cells, prog, |prog|)
      && codesize == Final(prog, |prog|) <= buffer.Length
      && s < |tr.log| && k <= |tr.log[s]| && First(tr.log, s) + k <= |prog|
      && x == (if k < |tr.log[s]| then tr.log[s][k].at else pos[s])
      && cp == Final(prog, First(tr.log, s) + k) <= buffer.Length
      && buffer[..cp] == Code(prog, base, First(tr.log, s) + k)
    }

    /** What the cells and the room in the buffer are when pass 3 reaches an item. */
    lemma AtItem(s: nat, k: nat, x: int, cp: nat, base: int, buffer: array<byte>)
      requires Encoding(s, k, x, cp, base, buffer) && k < |tr.log[s]|
      ensures var i := First(tr.log, s) + k;
              && i < |prog| && prog[i] == ToCmd(al, tr.log, cells0, globals0, tr.log[s][k])
              && WellFormedCmd(prog, i)
              && Code(prog, base, i + 1) == Encoded(prog, base, i, Code(prog, base, i))
              && |Code(prog, base, i)| == Final(prog, i)
              && |Code(prog, base, i + 1)| == Final(prog, i + 1) <= codesize
    {
      hide Ready;
      hide Program;
      hide LinkInv;
      hide Final;
      hide Encoded;
      var i := First(tr.log, s) + k;
      ItemAt(al, St0(), tr.links, tr.log, |globals|, globals0, s, k);
      CodeLength(prog, base, i);
      CodeLength(prog, base, i + 1);
      GapShrinks(prog, i + 1, |prog|);
      assert WellFormedCmd(prog, i);
    }

    /** An undefined global's marker names a global this unit does not define. */
    lemma MarkerIsUndefined(s: nat, k: nat)
      requires RefsFinal() && s < |tr.log| && k < |tr.log[s]| && tr.log[s][k].a.IsRef()
      requires CellValue(cells0, tr.log[s][k].at) < 0
      requires forall s', k' :: 0 <= s' < |tr.log| && 0 <= k' < |tr.log[s']| ==> tr.log[s'][k'].at >= 0
      ensures !DefinesGlobal(tr.log, 0 - cells0[tr.log[s][k].at])
    {
      var it := tr.log[s][k];
      assert it.LabelEvent() in tr.hist;
      var t :| 0 <= t < |tr.hist| && tr.hist[t] == it.LabelEvent();
      assert FinalRef(cells0, tr.hist, t);
      assert Resolve(tr.hist, t).None? by {
        if Resolve(tr.hist, t).Some? { ResolveIsDef(tr.hist, t); }
      }
      var idx := 0 - cells0[it.at];
      if DefinesGlobal(tr.log, idx) {
        var s', k' :| 0 <= s' < |tr.log| && 0 <= k' < |tr.log[s']| && IsGlobalLabel(tr.log[s'][k'], idx);
        assert tr.log[s'][k'].LabelEvent() in tr.hist;
        UndefinedEverywhere(tr.hist, t, tr.log[s'][k'].at);
      }
    }

    /** The cells a reference leads to. */
    lemma AtReference(s: nat, k: nat, x: int, cp: nat, base: int, buffer: array<byte>)
      requires Encoding(s, k, x, cp, base, buffer) && k < |tr.log[s]| && tr.log[s][k].a.IsRef()
      ensures x in cells && (tr.log[s][k].a.IsRel() ==> x + 1 in cells)
      ensures var i := First(tr.log, s) + k;
              && i < |prog|
              && (cells[x] < 0 ==>
                    && 0 <= -cells[x] < |globals| && (tr.log[s][k].a.RelLG? || tr.log[s][k].a.AddrLG?)
                    && globals[-cells[x]] == GlobalAddress(globals0, cells[x]))
              && (cells[x] >= 0 ==> cells[x] in cells && LeadsTo(prog, i, tr.log[s][k], cells[cells[x]]))
              && (tr.log[s][k].a.IsRel() ==> cells[x+1] == ShrinkOf(prog, i))
              && CellValue(cells0, x) == cells[x]
    {
      hide Ready;
      hide RefsFinal;
      hide GlobalsKept;
      hide Program;
      hide Final;
      hide LinkInv;
      hide WellFormed;
      hide ToCmd;
      hide Short;
      hide Code;
      AtItem(s, k, x, cp, base, buffer);
      RefCells(al, St0(), tr.links, tr.log, |globals|, prog, cells, |prog|, s, k);
      if cells[x] < 0 { AtMarker(s, k); } else { AtHome(s, k); }
    }

    /** A reference to a global that this unit does not define. */
    lemma AtMarker(s: nat, k: nat)
      requires Prepared() && RefsFinal() && GlobalsKept() && s < |tr.log| && k < |tr.log[s]| && tr.log[s][k].a.IsRef()
      requires CellValue(cells0, tr.log[s][k].at) < 0
      ensures var v := CellValue(cells0, tr.log[s][k].at);
              && 0 <= -v < |globals| && (tr.log[s][k].a.RelLG? || tr.log[s][k].a.AddrLG?)
              && globals[-v] == GlobalAddress(globals0, v)
    {
      hide StoreOk;
      hide Program;
      hide Complete;
      hide WellFormed;
      assert RefResolved(tr.log, cells0, |globals|, tr.log[s][k]);
      forall s', k' | 0 <= s' < |tr.log| && 0 <= k' < |tr.log[s']| ensures tr.log[s'][k'].at >= 0 {
        SectionOf(al, St0(), tr.links, tr.log, s', k');
      }
      hide Ready;
      MarkerIsUndefined(s, k);
    }

    /** A reference to a label of this unit, or one that is linked into a chain. */
    lemma AtHome(s: nat, k: nat)
      requires Prepared() && LinkInv(tr.log, cells0, cells, prog, |prog|)
      requires s < |tr.log| && k < |tr.log[s]| && tr.log[s][k].a.IsRef()
      requires CellValue(cells0, tr.log[s][k].at) >= 0
      ensures var v := CellValue(cells0, tr.log[s][k].at);
              v in cells && LeadsTo(prog, First(tr.log, s) + k, tr.log[s][k], cells[v])
    {
      hide StoreOk;
      hide Complete;
      hide Program;
      hide LinkInv;
      hide Final;
      hide WellFormed;
      assert RefResolved(tr.log, cells0, |globals|, tr.log[s][k]);
      hide Ready;
      var v := CellValue(cells0, tr.log[s][k].at);
      ItemAt(al, St0(), tr.links, tr.log, |globals|, globals0, s, k);
      if LabelHere(tr.log, v) {
        var s', k' := HomeIsLabel(tr.log, v);
        ItemAt(al, St0(), tr.links, tr.log, |globals|, globals0, s', k');
        RefCells(al, St0(), tr.links, tr.log, |globals|, prog, cells, |prog|, s', k');
      } else {
        var s': nat, k': nat :| IsLinkAt(tr.log, s', k', v);
        LinkCell(al, St0(), tr.links, tr.log, |globals|, prog, cells, |prog|, s', k');
      }
    }

    /** Pass 3 at a relative reference: the displacement it writes is the one the program asks for. */
    lemma AtRel(s: nat, k: nat, x: int, cp: nat, base: int, buffer: array<byte>)
      requires Encoding(s, k, x, cp, base, buffer) && k < |tr.log[s]| && tr.log[s][k].a.IsRel()
      ensures x in cells && x + 1 in cells
      ensures var i := First(tr.log, s) + k;
              var out := Code(prog, base, i);
              && i < |prog|
              && (cells[x] < 0 ==>
                    && 0 <= -cells[x] < |globals| && tr.log[s][k].a.RelLG?
                    && cp + 4 == Final(prog, i + 1) <= buffer.Length
                    && Code(prog, base, i + 1) == out + LE(globals[-cells[x]] - (base + cp + 4), 4))
              && (cells[x] >= 0 ==>
                    && cells[x] in cells && 0 <= cells[x+1]
                    && (cells[x+1] == 0 || (cells[x+1] == 3 && cp >= 1)
                        || (cells[x+1] == 4 && cp >= 2 && out[cp-1] >= 0x10))
                    && cp + 4 - cells[x+1] == Final(prog, i + 1) <= buffer.Length
                    && Code(prog, base, i + 1)
                       == BranchImage(out, cells[cells[x]] - (cp + 4 - cells[x+1]), cells[x+1]))
    {
      hide Ready;
      hide Program;
      hide LinkInv;
      hide WellFormed;
      hide RefsFinal;
      hide LE;
      hide ShrinkOf;
      hide BranchImage;
      hide LabelAt;
      hide Code;
      var i := First(tr.log, s) + k;
      AtItem(s, k, x, cp, base, buffer);
      AtReference(s, k, x, cp, base, buffer);
      if cells[x] >= 0 {
        hide Encoded;
        BranchStep(prog, base, i, Code(prog, base, i));
      }
    }

    /** Pass 3 at a relative reference. */
    method EncodeRel(s: nat, x: int, cp: nat, base: int, buffer: array<byte>, ghost k: nat) returns (cp': nat)
      requires Encoding(s, k, x, cp, base, buffer) && k < |tr.log[s]| && tr.log[s][k].a.IsRel()
      modifies buffer
      ensures Encoding(s, k + 1, x + 2, cp', base, buffer)
    {
      hide Ready;
      hide Program;
      hide LinkInv;
      hide Final;
      hide Code;
      hide WellFormed;
      hide RefsFinal;
      hide LE;
      hide BranchImage;
      AtRel(s, k, x, cp, base, buffer);
      WalkStep(al, St0(), tr.links, tr.log, |globals|, s, k);
      var n := cells[x];
      if n < 0 {
        n := globals[-n] - (base + cp + 4);
        cp' := WriteLE(buffer, cp, n, 4);
      } else {
        if cp > 0 { assert buffer[..cp][cp-1] == buffer[cp-1]; }
        var shrink := cells[x+1];
        cp' := WriteBranch(buffer, cp, cells[n] - (cp + 4 - shrink), shrink);
      }
    }

    /** Pass 3 moves on after the bytes of an item without a relative reference have been written. */
    lemma Encoded1(s: nat, k: nat, x: int, cp: nat, base: int, buffer: array<byte>)
      requires Prepared() && RefsFinal() && GlobalsKept()
      requires LinkInv(tr.log, cells0, cells, prog, |prog|) && codesize == Final(prog, |prog|) <= buffer.Length
      requires s < |tr.log| && k < |tr.log[s]| && First(tr.log, s) + k < |prog|
      requires x == tr.log[s][k].at && cp <= buffer.Length
      requires buffer[..cp] == Encoded(prog, base, First(tr.log, s) + k, Code(prog, base, First(tr.log, s) + k))
      ensures Encoding(s, k + 1, x + tr.log[s][k].a.Slots(), cp, base, buffer)
    {
      hide Ready;
      hide Program;
      hide LinkInv;
      hide RefsFinal;
      hide GlobalsKept;
      hide Encoded;
      hide Final;
      WalkStep(al, St0(), tr.links, tr.log, |globals|, s, k);
      CodeLength(prog, base, First(tr.log, s) + k + 1);
    }

    /** Immediate operands, space and alignment. */
    method EncodeArgument(s: nat, x: int, cp: nat, base: int, buffer: array<byte>, a: Action, ghost k: nat)
      returns (cp': nat)
      requires Encoding(s, k, x, cp, base, buffer) && k < |tr.log[s]| && a == tr.log[s][k].a
      requires a.ImmS? || a.ImmB? || a.ImmW? || a.ImmD? || a.Space?
      modifies buffer
      ensures Encoding(s, k + 1, x + 1, cp', base, buffer)
    {
      hide Ready;
      hide Program;
      hide LinkInv;
      hide WellFormed;
      hide RefsFinal;
      hide GlobalsKept;
      hide LE;
      hide Repeat;
      hide Final;
      hide PadCount;
      hide Short;
      hide Code;
      AtItem(s, k, x, cp, base, buffer);
      ArgumentCell(al, St0(), tr.links, tr.log, |globals|, prog, cells, |prog|, s, k);
      var n := cells[x];
      if a.Space? {
        cp' := WriteFill(buffer, cp, n, a.fill);
      } else {
        cp' := WriteLE(buffer, cp, n, if a.ImmW? then 2 else if a.ImmD? then 4 else 1);
      }
      Encoded1(s, k, x, cp', base, buffer);
    }

    /** Literal bytes and alignment. */
    method EncodeFixed(s: nat, x: int, cp: nat, base: int, buffer: array<byte>, a: Action, ghost k: nat)
      returns (cp': nat)
      requires Encoding(s, k, x, cp, base, buffer) && k < |tr.log[s]| && a == tr.log[s][k].a
      requires a.Literal? || a.Align? || a.Start? || a.Terminal()
      modifies buffer
      ensures Encoding(s, k + 1, x + a.Slots(), cp', base, buffer)
    {
      hide Ready;
      hide Program;
      hide LinkInv;
      hide WellFormed;
      hide RefsFinal;
      hide GlobalsKept;
      hide LE;
      hide Repeat;
      hide Final;
      hide PadCount;
      hide Short;
      hide Code;
      AtItem(s, k, x, cp, base, buffer);
      cp' := cp;
      if a.Literal? {
        cp' := WriteLE(buffer, cp, a.b, 1);
        OneByte(a.b);
      } else if a.Align? {
        cp' := WritePad(buffer, cp, a.mask);
      }
      Encoded1(s, k, x, cp', base, buffer);
    }

    /** Absolute references. */
    method EncodeAddress(s: nat, x: int, cp: nat, base: int, buffer: array<byte>, ghost k: nat) returns (cp': nat)
      requires Encoding(s, k, x, cp, base, buffer) && k < |tr.log[s]|
               && (tr.log[s][k].a.AddrLG? || tr.log[s][k].a.AddrPC?)
      modifies buffer
      ensures Encoding(s, k + 1, x + 1, cp', base, buffer)
    {
      hide Ready;
      hide Program;
      hide LinkInv;
      hide WellFormed;
      hide RefsFinal;
      hide GlobalsKept;
      hide LE;
      hide Repeat;
      hide Final;
      hide PadCount;
      hide Short;
      hide Code;
      hide LabelAt;
      AtItem(s, k, x, cp, base, buffer);
      AtReference(s, k, x, cp, base, buffer);
      var n := cells[x];
      n := if n < 0 then globals[-n] else base + cells[n];
      cp' := WriteLE(buffer, cp, n, 4);
      Encoded1(s, k, x, cp', base, buffer);
    }

    lemma GlobalsKeptBy(s: nat, k: nat, v: int)
      requires GlobalsKept() && s < |tr.log| && k < |tr.log[s]| && tr.log[s][k].a.LabelLG?
               && tr.log[s][k].a.n < |globals|
      ensures GlobalsLike(tr.log, globals0, globals[tr.log[s][k].a.n := v])
    {
      assert IsGlobalLabel(tr.log[s][k], tr.log[s][k].a.n);
    }

    lemma LabelNumber(s: nat, k: nat)
      requires RefsFinal() && s < |tr.log| && k < |tr.log[s]| && tr.log[s][k].a.LabelLG?
      ensures tr.log[s][k].a.n < |globals0|
    {
      assert tr.log[s][k].HasEvent();
      assert tr.log[s][k].LabelEvent() in tr.hist;
    }

    /** Labels: a global one gets its address. */
    method EncodeLabel(s: nat, x: int, cp: nat, base: int, buffer: array<byte>, a: Action, ghost k: nat)
      requires Encoding(s, k, x, cp, base, buffer) && k < |tr.log[s]| && a == tr.log[s][k].a && a.IsLabel()
      modifies `globals
      ensures Encoding(s, k + 1, x + 1, cp, base, buffer)
      ensures GlobalsStep(tr.log, prog, base, s, k, old(globals), globals)
    {
      hide Prepared;
      hide LinkInv;
      hide RefsFinal;
      hide Code;
      hide Final;
      hide Encoded;
      hide GlobalsLike;
      LabelFacts(s, k, x, cp, base, buffer);
      if a.LabelLG? && a.n >= 10 {
        GlobalsKeptBy(s, k, base + cells[x]);
        globals := globals[a.n := base + cells[x]];
        StillPrepared();
      }
      Encoded1(s, k, x, cp, base, buffer);
    }

    /** A label adds no bytes, and its cell holds its final offset. */
    lemma LabelFacts(s: nat, k: nat, x: int, cp: nat, base: int, buffer: array<byte>)
      requires Encoding(s, k, x, cp, base, buffer) && k < |tr.log[s]| && tr.log[s][k].a.IsLabel()
      ensures var i := First(tr.log, s) + k;
              && i < |prog| && x in cells && cells[x] == LabelAt(prog, i)
              && Encoded(prog, base, i, Code(prog, base, i)) == Code(prog, base, i)
              && (tr.log[s][k].a.LabelLG? ==> tr.log[s][k].a.n < |globals0| == |globals|)
    {
      hide Ready;
      hide Program;
      hide LinkInv;
      hide WellFormed;
      hide RefsFinal;
      hide Code;
      hide Final;
      AtItem(s, k, x, cp, base, buffer);
      RefCells(al, St0(), tr.links, tr.log, |globals|, prog, cells, |prog|, s, k);
      if tr.log[s][k].a.LabelLG? { LabelNumber(s, k); }
    }

    /** Storing an address changes nothing that linking established. */
    twostate lemma StillPrepared()
      requires old(Prepared()) && |globals| == old(|globals|)
      requires unchanged(`lg, `pc, `pos, `ofs, `cells0, `tr, `prog, `globals0)
      ensures Prepared()
    {
      hide Ready;
      hide Program;
      hide WellFormed;
    }

    /** One action of pass 3. */
    method EncodeAction(s: nat, p: nat, x: int, cp: nat, base: int, buffer: array<byte>, ghost k: nat)
      returns (p': nat, x': int, cp': nat, stop: bool)
      requires Encoding(s, k, x, cp, base, buffer) && k < |tr.log[s]| && !tr.log[s][k].a.Start? && p == tr.log[s][k].p
      modifies buffer, `globals
      ensures Encoding(s, k + 1, x', cp', base, buffer)
      ensures stop == tr.log[s][k].a.Terminal()
      ensures !stop ==> k + 1 < |tr.log[s]| && !tr.log[s][k+1].a.Start? && p' == tr.log[s][k+1].p
      ensures stop && k + 1 < |tr.log[s]| ==> tr.log[s][k+1].a.Start?
      ensures GlobalsStep(tr.log, prog, base, s, k, old(globals), globals)
    {
      hide Prepared;
      hide RefsFinal;
      hide GlobalsKept;
      hide LinkInv;
      hide WellFormed;
      hide CellOk;
      hide ItemOk;
      hide Final;
      hide Code;
      Walk(s, k);
      var a := Decode(al, p);
      p', x', cp', stop := p + a.Length(), x + a.Slots(), cp, a.Terminal();
      if a.IsRel() {
        cp' := EncodeRel(s, x, cp, base, buffer, k);
      } else if a.IsRef() {
        cp' := EncodeAddress(s, x, cp, base, buffer, k);
      } else if a.IsLabel() {
        EncodeLabel(s, x, cp, base, buffer, a, k);
      } else if a.Literal? || a.Align? || a.Terminal() {
        cp' := EncodeFixed(s, x, cp, base, buffer, a, k);
      } else {
        cp' := EncodeArgument(s, x, cp, base, buffer, a, k);
      }
    }

    lemma Walk(s: nat, k: nat)
      requires Prepared() && s < |tr.log| && k < |tr.log[s]|
      ensures var L, it := tr.log[s], tr.log[s][k];
              && (k == 0 ==> it.a.Start?)
              && !it.a.Unknown?
              && (!it.a.Start? ==> it.p < |al| && it.a == Decode(al, it.p))
              && (it.a.Terminal() && k + 1 < |L| ==> L[k+1].a.Start?)
              && (!it.a.Terminal() ==> k + 1 < |L| && L[k+1].p == (if it.a.Start? then it.p else it.p + it.a.Length())
                                       && !L[k+1].a.Start?)
    {
      hide Ready;
      hide Program;
      hide WellFormed;
      WalkStep(al, St0(), tr.links, tr.log, |globals|, s, k);
    }

    /** Pass 3 over one section. */
    method EncodeSection(s: nat, cp: nat, base: int, buffer: array<byte>) returns (cp': nat)
      requires s < |tr.log| && SectionEncoded(s, cp, base, buffer)
      modifies buffer, `globals
      ensures SectionEncoded(s + 1, cp', base, buffer)
    {
      hide Prepared;
      hide RefsFinal;
      hide GlobalsKept;
      hide LinkInv;
      hide Final;
      hide Code;
      hide GlobalsAt;
      hide GlobalsStep;
      Bounds(s);
      var x := s * BIAS;
      cp' := cp;
      ghost var k := 0;
      while x != pos[s]
        invariant Encoding(s, k, x, cp', base, buffer)
        invariant k < |tr.log[s]| ==> tr.log[s][k].a.Start?
        invariant GlobalsAt(tr.log, prog, base, globals, First(tr.log, s) + k)
        decreases |tr.log[s]| - k
      {
        ghost var k0 := k;
        Walk(s, k);
        StartAt(s, k);
        var p, stop := cells[x], false;
        ghost var g := globals;
        cp' := EncodeFixed(s, x, cp', base, buffer, Start, k);
        GlobalsSame(tr.log, prog, base, g, globals, s, k);
        x := x + 1;
        k := k + 1;
        while !stop
          invariant k0 < k && Encoding(s, k, x, cp', base, buffer)
          invariant !stop ==> k < |tr.log[s]| && !tr.log[s][k].a.Start? && p == tr.log[s][k].p
          invariant stop && k < |tr.log[s]| ==> tr.log[s][k].a.Start?
          invariant GlobalsAt(tr.log, prog, base, globals, First(tr.log, s) + k)
          decreases |tr.log[s]| - k, !stop
        {
          g := globals;
          p, x, cp', stop := EncodeAction(s, p, x, cp', base, buffer, k);
          GlobalsAdvance(tr.log, prog, base, g, globals, s, k);
          k := k + 1;
        }
      }
    }

    /** Pass 3 stands before section s. */
    ghost predicate SectionEncoded(s: nat, cp: nat, base: int, buffer: array<byte>)
      reads this, buffer
    {
      && Prepared() && RefsFinal() && GlobalsKept()
      && LinkInv(tr.log, cells0, cells, prog, |prog|)
      && codesize == Final(prog, |prog|) <= buffer.Length
      && s <= |tr.log| && First(tr.log, s) <= |prog|
      && cp == Final(prog, First(tr.log, s)) <= buffer.Length
      && buffer[..cp] == Code(prog, base, First(tr.log, s))
      && GlobalsAt(tr.log, prog, base, globals, First(tr.log, s))
    }

    lemma Bounds(s: nat)
      requires Prepared() && s < |tr.log|
      ensures |pos| == |tr.log| && s * BIAS == if tr.log[s] == [] then pos[s] else tr.log[s][0].at
      ensures tr.log[s] != [] ==> tr.log[s][0].a.Start?
      ensures forall k :: 0 <= k < |tr.log[s]| && tr.log[s][k].a.Start? ==> tr.log[s][k].at < pos[s]
      ensures First(tr.log, s + 1) == First(tr.log, s) + |tr.log[s]| <= |prog|
    {
      hide Ready;
      hide WellFormed;
      SectionBounds(al, St0(), tr.links, tr.log, |globals|, s);
    }

    lemma StartAt(s: nat, k: nat)
      requires Prepared() && s < |tr.log| && k < |tr.log[s]| && tr.log[s][k].a.Start?
      requires LinkInv(tr.log, cells0, cells, prog, |prog|)
      ensures tr.log[s][k].at in cells && cells[tr.log[s][k].at] == tr.log[s][k].p
    {
      hide Ready;
      hide WellFormed;
      hide LinkInv;
      StartCell(al, St0(), tr.links, tr.log, |globals|, prog, cells, |prog|, s, k);
    }

    /** Pass 3: never a phase error; the buffer holds the code of the linked program. */
    method Encode(buffer: array<byte>, base: int) returns (code: int)
      requires Linked() && codesize <= buffer.Length
      modifies buffer, `globals
      ensures code == S_OK
      ensures Linked() && buffer[..codesize] == Code(prog, base, |prog|)
      ensures AllItemBytes(tr.log, prog, base, buffer[..codesize])
      ensures AllRefBytes(tr.log, tr.hist, prog, globals0, base, buffer[..codesize])
      ensures GlobalsAt(tr.log, prog, base, globals, |prog|)
    {
      hide Prepared;
      hide RefsFinal;
      hide SlotsFinal;
      hide LinkInv;
      assert Final(prog, 0) == 0 && Code(prog, base, 0) == [];
      hide Final;
      hide Code;
      hide AllItemBytes;
      hide AllRefBytes;
      ProgSize();
      AllEncoded(base);
      var cp := 0;
      for s := 0 to |pos|
        invariant SectionEncoded(s, cp, base, buffer)
      {
        cp := EncodeSection(s, cp, base, buffer);
      }
      code := if codesize != cp then S_PHASE else S_OK;
    }

    lemma ProgSize()
      requires Prepared()
      ensures |pos| == |tr.log| && |prog| == First(tr.log, |tr.log|)
    {
    }

    /** A relative reference that stands for a definition: after pass 3 the machine code at its place,
        short or long, leads to where pass 3 stands when it reaches the label. */
    lemma BranchReachesLabel(s: nat, k: nat, t: nat, base: int, code: seq<byte>)
      requires Linked() && codesize < 0x8000_0000 && code == Code(prog, base, |prog|)
      requires t < |tr.hist| && EventItem(tr.log, s, k, tr.hist[t]) && tr.log[s][k].a.IsRel()
      requires Resolve(tr.hist, t).Some?
      ensures Reaches(tr.log, prog, base, code, s, k, Def(Resolve(tr.hist, t).value, tr.hist[t].key))
    {
      hide Program;
      hide LinkInv;
      hide Final;
      hide Code;
      hide Short;
      hide Signed;
      hide Resolve;
      hide SlotsFinal;
      hide Ready;
      hide WellFormed;
      hide StoreOk;
      var i := First(tr.log, s) + k;
      var s', k' := Target(s, k, t);
      BranchLands(prog, base, i);
      LabelOffsetIsPosition(s', k', base);
      assert EventItem(tr.log, s', k', Def(Resolve(tr.hist, t).value, tr.hist[t].key));
    }

    /** The label item that a resolved reference names. */
    lemma Target(s: nat, k: nat, t: nat) returns (s': nat, k': nat)
      requires Linked() && t < |tr.hist| && EventItem(tr.log, s, k, tr.hist[t]) && tr.log[s][k].a.IsRel()
      requires Resolve(tr.hist, t).Some?
      ensures EventItem(tr.log, s', k', Def(Resolve(tr.hist, t).value, tr.hist[t].key)) && tr.log[s'][k'].a.IsLabel()
      ensures First(tr.log, s) + k < |prog| && First(tr.log, s') + k' < |prog|
      ensures prog[First(tr.log, s) + k].Branch? && prog[First(tr.log, s) + k].target == First(tr.log, s') + k'
      ensures CellValue(cells, tr.log[s'][k'].at) == LabelAt(prog, First(tr.log, s') + k')
    {
      hide Ready;
      hide Program;
      hide LinkInv;
      hide Final;
      hide SlotsFinal;
      hide RefsFinal;
      hide WellFormed;
      hide Resolve;
      s', k' := Home(s, k, t);
      ItemAt(al, St0(), tr.links, tr.log, |globals|, globals0, s, k);
      ItemAt(al, St0(), tr.links, tr.log, |globals|, globals0, s', k');
      RefCells(al, St0(), tr.links, tr.log, |globals|, prog, cells, |prog|, s', k');
    }

    lemma Home(s: nat, k: nat, t: nat) returns (s': nat, k': nat)
      requires Prepared() && RefsFinal() && t < |tr.hist| && EventItem(tr.log, s, k, tr.hist[t])
               && tr.log[s][k].a.IsRef()
      requires Resolve(tr.hist, t).Some?
      ensures EventItem(tr.log, s', k', Def(Resolve(tr.hist, t).value, tr.hist[t].key)) && tr.log[s'][k'].a.IsLabel()
      ensures var v := CellValue(cells0, tr.log[s][k].at);
              v == tr.log[s'][k'].at >= 0 && LabelHere(tr.log, v) && HomeIndex(tr.log, v) == First(tr.log, s') + k'
    {
      hide Program;
      hide Final;
      hide Resolve;
      hide StoreOk;
      hide WellFormed;
      hide Flat;
      assert FinalRef(cells0, tr.hist, t);
      ResolveIsDef(tr.hist, t);
      var e := Def(Resolve(tr.hist, t).value, tr.hist[t].key);
      s', k' :| EventItem(tr.log, s', k', e);
      hide Matched;
      HomeIs(al, St0(), tr.links, tr.log, s', k');
    }

    /** An absolute reference that stands for a definition. */
    lemma TargetAddress(s: nat, k: nat, t: nat) returns (s': nat, k': nat)
      requires Linked() && t < |tr.hist| && EventItem(tr.log, s, k, tr.hist[t])
      requires tr.log[s][k].a.IsRef() && !tr.log[s][k].a.IsRel() && Resolve(tr.hist, t).Some?
      ensures EventItem(tr.log, s', k', Def(Resolve(tr.hist, t).value, tr.hist[t].key))
      ensures First(tr.log, s) + k < |prog| && prog[First(tr.log, s) + k] == Address(First(tr.log, s') + k')
    {
      hide Ready;
      hide Program;
      hide LinkInv;
      hide Final;
      hide SlotsFinal;
      hide RefsFinal;
      hide WellFormed;
      hide Resolve;
      s', k' := Home(s, k, t);
      ItemAt(al, St0(), tr.links, tr.log, |globals|, globals0, s, k);
    }

    /** A reference to a global that the unit does not define. */
    lemma OutsideAddress(s: nat, k: nat, t: nat)
      requires Linked() && t < |tr.hist| && tr.hist[t].Ref? && EventItem(tr.log, s, k, tr.hist[t])
      requires Resolve(tr.hist, t).None? && tr.hist[t].key.LG? && tr.hist[t].key.i >= 10
      ensures var i, idx := First(tr.log, s) + k, tr.hist[t].key.i;
              && i < |prog| && idx < |globals0|
              && prog[i] == if tr.log[s][k].a.IsRel() then ExtBranch(Opcode(al, tr.log[s][k]), globals0[idx])
                            else ExtAddress(globals0[idx])
    {
      hide Program;
      hide LinkInv;
      hide Final;
      hide SlotsFinal;
      hide WellFormed;
      hide Resolve;
      hide StoreOk;
      hide Complete;
      assert FinalRef(cells0, tr.hist, t);
      assert RefResolved(tr.log, cells0, |globals|, tr.log[s][k]);
      hide Ready;
      hide RefsFinal;
      ItemAt(al, St0(), tr.links, tr.log, |globals|, globals0, s, k);
    }

    /** Where an item stands in the code. */
    lemma Spanned(s: nat, k: nat, base: int, code: seq<byte>)
      requires Linked() && code == Code(prog, base, |prog|) && s < |tr.log| && k < |tr.log[s]|
      ensures var i := First(tr.log, s) + k;
              && i < |prog| && PlaceOf(prog, base, i) == Final(prog, i)
                 && PlaceOf(prog, base, i + 1) == Final(prog, i + 1)
              && Spans(tr.log, prog, base, code, s, k, Final(prog, i), Final(prog, i + 1))
              && prog[i] == ToCmd(al, tr.log, cells0, globals0, tr.log[s][k])
              && ItemOk(al, tr.log[s], k) && ItemInRange(tr.log[s][k], Limits(|tr.log|, |lg|, |pc|))
    {
      hide Ready;
      hide Program;
      hide LinkInv;
      hide RefsFinal;
      hide Code;
      hide ToCmd;
      hide ItemInRange;
      var i := First(tr.log, s) + k;
      ItemAt(al, St0(), tr.links, tr.log, |globals|, globals0, s, k);
      CodeLength(prog, base, i);
      CodeLength(prog, base, i + 1);
      CodeLength(prog, base, |prog|);
      GapShrinks(prog, i, i + 1);
      GapShrinks(prog, i + 1, |prog|);
    }

    /** A literal in front of a command that pass 3 makes short is followed by the item that says so. */
    lemma OpcodeIsShrunk(s: nat, k: nat)
      requires Linked() && s < |tr.log| && k < |tr.log[s]| && tr.log[s][k].a.Literal?
      requires OpcodeOfShort(prog, First(tr.log, s) + k)
      ensures ShrunkOpcode(tr.log, prog, s, k)
    {
      hide Ready;
      hide Program;
      hide LinkInv;
      hide RefsFinal;
      hide SlotsFinal;
      hide Code;
      hide Short;
      var i := First(tr.log, s) + k;
      WalkStep(al, St0(), tr.links, tr.log, |globals|, s, k);
      Spanned(s, k + 1, 0, Code(prog, 0, |prog|));
      if Back(prog, i + 1) >= 1 {
        ShortIsRelative(prog, i + 1);
        assert Short(prog, First(tr.log, s) + (k + 1));
      } else {
        ShortIsRelative(prog, i + 2);
        assert WellFormedCmd(prog, i + 2);
        WalkStep(al, St0(), tr.links, tr.log, |globals|, s, k + 1);
        Spanned(s, k + 2, 0, Code(prog, 0, |prog|));
        assert Short(prog, First(tr.log, s) + (k + 2));
      }
    }

    /** A literal that is not in front of a branch that was made short is what the action list says. */
    lemma LiteralBytes(s: nat, k: nat, base: int, code: seq<byte>)
      requires Linked() && code == Code(prog, base, |prog|) && s < |tr.log| && k < |tr.log[s]|
      requires tr.log[s][k].a.Literal? && !ShrunkOpcode(tr.log, prog, s, k)
      ensures var x := PlaceOf(prog, base, First(tr.log, s) + k);
              && PlaceOf(prog, base, First(tr.log, s) + k + 1) == x + 1 <= |code| && code[x] == tr.log[s][k].a.b
    {
      hide Ready;
      hide Program;
      hide LinkInv;
      hide RefsFinal;
      hide SlotsFinal;
      hide Code;
      hide Short;
      hide OpcodeOfShort;
      hide ShrunkOpcode;
      var i := First(tr.log, s) + k;
      Spanned(s, k, base, code);
      assert Size(prog, i) == 1;
      if OpcodeOfShort(prog, i) { OpcodeIsShrunk(s, k); }
      LiteralStays(prog, base, i, |prog|);
    }

    /** The bytes of an item that is no reference. */
    lemma ItemEncodes(s: nat, k: nat, base: int, code: seq<byte>)
      requires Linked() && code == Code(prog, base, |prog|) && s < |tr.log| && k < |tr.log[s]|
      ensures ItemBytes(tr.log, prog, base, code, s, k)
    {
      hide Ready;
      hide LinkInv;
      hide RefsFinal;
      hide SlotsFinal;
      hide Final;
      hide Code;
      hide Short;
      hide Program;
      hide BytesOf;
      hide ShrunkOpcode;
      var i, it := First(tr.log, s) + k, tr.log[s][k];
      Spanned(s, k, base, code);
      var x, y := Final(prog, i), Final(prog, i + 1);
      if it.a.Literal? {
        if !ShrunkOpcode(tr.log, prog, s, k) {
          LiteralBytes(s, k, base, code);
          LiteralIs(it, code, x, y);
        }
      } else if it.a.IsRef() {
        RefIs(it, code, x, y);
      } else {
        assert !prog[i].Relative() && !prog[i].Emit?;
        NotShort(prog, i);
        CommandBytes(prog, base, i);
        if it.a.Align? { PadAligns(prog, i); }
        PlainIs(prog, base, i, it, code, x, y);
      }
      assert Spans(tr.log, prog, base, code, s, k, x, y);
    }

    /** An absolute reference that stands for a definition holds its address. */
    lemma AddressBytes(s: nat, k: nat, t: nat, base: int, code: seq<byte>) returns (s': nat, k': nat)
      requires Linked() && code == Code(prog, base, |prog|) && t < |tr.hist| && EventItem(tr.log, s, k, tr.hist[t])
      requires tr.log[s][k].a.IsRef() && !tr.log[s][k].a.IsRel() && Resolve(tr.hist, t).Some?
      ensures EventItem(tr.log, s', k', Def(Resolve(tr.hist, t).value, tr.hist[t].key))
      ensures var i := First(tr.log, s) + k;
              var x, y := PlaceOf(prog, base, i), PlaceOf(prog, base, i + 1);
              && x <= y <= |code| && y == x + 4
              && Unsigned(code[x..y]) == (base + PlaceOf(prog, base, First(tr.log, s') + k')) % 0x1_0000_0000
    {
      hide Ready;
      hide LinkInv;
      hide RefsFinal;
      hide SlotsFinal;
      hide Final;
      hide Code;
      hide Program;
      hide Resolve;
      hide LE;
      hide Unsigned;
      hide ItemOk;
      var i := First(tr.log, s) + k;
      Spanned(s, k, base, code);
      s', k' := TargetAddress(s, k, t);
      Spanned(s', k', base, code);
      NotShort(prog, i);
      CommandBytes(prog, base, i);
      hide Short;
      FourBytes(code, Final(prog, i), Final(prog, i + 1), base + Final(prog, First(tr.log, s') + k'));
    }

    /** A reference to a global that the unit does not define holds its address, or the distance to it. */
    lemma OutsideBytes(s: nat, k: nat, t: nat, base: int, code: seq<byte>)
      requires Linked() && code == Code(prog, base, |prog|)
      requires t < |tr.hist| && tr.hist[t].Ref? && EventItem(tr.log, s, k, tr.hist[t])
      requires Resolve(tr.hist, t).None? && tr.hist[t].key.LG? && tr.hist[t].key.i >= 10
      ensures var i := First(tr.log, s) + k;
              var x, y := PlaceOf(prog, base, i), PlaceOf(prog, base, i + 1);
              && tr.hist[t].key.i < |globals0| && x <= y <= |code| && y == x + 4
              && Unsigned(code[x..y])
                 == (globals0[tr.hist[t].key.i] - if tr.log[s][k].a.IsRel() then base + y else 0) % 0x1_0000_0000
    {
      hide Ready;
      hide LinkInv;
      hide RefsFinal;
      hide SlotsFinal;
      hide Final;
      hide Code;
      hide Program;
      hide Resolve;
      hide LE;
      hide Unsigned;
      hide ItemOk;
      var i := First(tr.log, s) + k;
      Spanned(s, k, base, code);
      OutsideAddress(s, k, t);
      NotShort(prog, i);
      CommandBytes(prog, base, i);
      hide Short;
      var x, y := Final(prog, i), Final(prog, i + 1);
      FourBytes(code, x, y, globals0[tr.hist[t].key.i] - if tr.log[s][k].a.IsRel() then base + y else 0);
    }

    /** The bytes of a reference. */
    lemma RefEncodes(s: nat, k: nat, t: nat, base: int, code: seq<byte>)
      requires Linked() && code == Code(prog, base, |prog|)
      requires t < |tr.hist| && tr.hist[t].Ref? && EventItem(tr.log, s, k, tr.hist[t])
      ensures RefBytes(tr.log, tr.hist, prog, globals0, base, code, s, k, t)
    {
      hide Prepared;
      hide LinkInv;
      hide RefsFinal;
      hide SlotsFinal;
      hide Final;
      hide Code;
      hide Short;
      hide Resolve;
      hide Unsigned;
      hide ItemOk;
      hide ToCmd;
      var i, it := First(tr.log, s) + k, tr.log[s][k];
      Spanned(s, k, base, code);
      var x, y := Final(prog, i), Final(prog, i + 1);
      assert Spans(tr.log, prog, base, code, s, k, x, y);
      if it.a.IsRel() && Short(prog, i) { ShortBytes(s, k, base, code); }
      if Resolve(tr.hist, t).Some? && !it.a.IsRel() {
        var s', k' := AddressBytes(s, k, t, base, code);
      } else if Resolve(tr.hist, t).None? && tr.hist[t].key.LG? && tr.hist[t].key.i >= 10 {
        OutsideBytes(s, k, t, base, code);
      }
    }

    /** A branch that was made short has its one-byte opcode right before its displacement. */
    lemma ShortBytes(s: nat, k: nat, base: int, code: seq<byte>)
      requires Linked() && code == Code(prog, base, |prog|) && s < |tr.log| && k < |tr.log[s]| && tr.log[s][k].a.IsRel()
      requires First(tr.log, s) + k < |prog| && Short(prog, First(tr.log, s) + k)
      ensures var y := Final(prog, First(tr.log, s) + k + 1);
              && k > 0 && tr.log[s][k-1].a.Literal? && 2 <= y <= |code| && code[y-2] == ShortForm(tr.log[s][k-1].a.b)
    {
      hide Ready;
      hide LinkInv;
      hide RefsFinal;
      hide SlotsFinal;
      hide Final;
      hide Code;
      hide Program;
      hide SeenDistance;
      hide StrayDistance;
      var i := First(tr.log, s) + k;
      Spanned(s, k, base, code);
      ShortIsRelative(prog, i);
      assert prog[i].op == Opcode(al, tr.log[s][k]) && Saving(prog[i].op) != 0;
      hide Short;
      ShortOpcode(prog, base, i);
    }

    /** Every recorded item is in the code as the law for it says. */
    lemma AllEncoded(base: int)
      requires Linked()
      ensures AllItemBytes(tr.log, prog, base, Code(prog, base, |prog|))
      ensures AllRefBytes(tr.log, tr.hist, prog, globals0, base, Code(prog, base, |prog|))
    {
      hide ItemBytes;
      hide RefBytes;
      hide Linked;
      hide Code;
      var code := Code(prog, base, |prog|);
      forall s: nat, k: nat | s < |tr.log| && k < |tr.log[s]| ensures ItemBytes(tr.log, prog, base, code, s, k) {
        ItemEncodes(s, k, base, code);
      }
      forall s: nat, k: nat, t: nat | t < |tr.hist| && tr.hist[t].Ref? && EventItem(tr.log, s, k, tr.hist[t])
        ensures RefBytes(tr.log, tr.hist, prog, globals0, base, code, s, k, t)
      {
        RefEncodes(s, k, t, base, code);
      }
    }

    lemma WaitingLink(t: nat)
      requires Linked() && t < |tr.hist| && tr.hist[t].Ref? && Resolve(tr.hist, t).None? && Local(tr.hist[t].key)
      ensures ChainLink(tr.hist, t) >= 0 && LinkHere(tr.log, ChainLink(tr.hist, t))
    {
      hide Program;
      hide LinkInv;
      hide Final;
      hide Resolve;
      hide SlotValue;
      hide StoreOk;
      hide WellFormed;
      hide Matched;
      if ChainLink(tr.hist, t) > 0 {
        LinkBehind(tr.log, tr.links, tr.hist, cells0, t);
      } else {
        LinkFirst(al, St0(), tr.links, tr.log, tr.hist, t);
      }
    }

    /** A local reference that still waits is encoded for whatever its chain link holds. */
    lemma WaitingIsStray(s: nat, k: nat, t: nat)
      requires Linked() && t < |tr.hist| && EventItem(tr.log, s, k, tr.hist[t]) && tr.log[s][k].a.IsRel()
      requires Resolve(tr.hist, t).None? && Local(tr.hist[t].key)
      ensures var i := First(tr.log, s) + k;
              i < |prog| && prog[i].Stray? && prog[i].offset == CellValue(cells0, ChainLink(tr.hist, t))
      ensures !LabelHere(tr.log, CellValue(cells0, tr.log[s][k].at))
    {
      hide Program;
      hide LinkInv;
      hide Final;
      hide Short;
      hide Resolve;
      hide ChainLink;
      hide StoreOk;
      hide WellFormed;
      assert FinalRef(cells0, tr.hist, t);
      WaitingLink(t);
      LinkIsNoLabel(al, St0(), tr.links, tr.log, ChainLink(tr.hist, t));
      hide Ready;
      ItemAt(al, St0(), tr.links, tr.log, |globals|, globals0, s, k);
    }

    /** A label's cell holds the offset at which pass 3 stands when it reaches the label. */
    lemma LabelOffsetIsPosition(s: nat, k: nat, base: int)
      requires Linked() && s < |tr.log| && k < |tr.log[s]| && tr.log[s][k].a.IsLabel()
      ensures First(tr.log, s) + k < |prog|
      ensures CellValue(cells, tr.log[s][k].at) == |Code(prog, base, First(tr.log, s) + k)|
    {
      hide Ready;
      hide Program;
      hide LinkInv;
      hide Final;
      hide Code;
      ItemAt(al, St0(), tr.links, tr.log, |globals|, globals0, s, k);
      RefCells(al, St0(), tr.links, tr.log, |globals|, prog, cells, |prog|, s, k);
      CodeLength(prog, base, First(tr.log, s) + k);
    }

    // -------------------------------------------------------------- set-up and queries

    /** A fresh encoder; `addresses` are the known addresses of the globals, numbered from 10. */
    constructor (actions: ActionList, maxsection: nat, addresses: seq<int>, maxpc: nat)
      requires maxsection > 0
      ensures Valid() && status == S_OK && cur == 0 && al == actions && globals == seq(10, _ => 0) + addresses
      ensures tr.log == seq(maxsection, _ => []) && tr.hist == [] && |pc| == maxpc && |lg| == 10 + |addresses|
    {
      al := actions;
      lg := seq(10 + |addresses|, _ => 0);
      pc := seq(maxpc, _ => 0);
      globals := seq(10, _ => 0) + addresses;
      pos := seq(maxsection, s => s * BIAS);
      ofs := seq(maxsection, _ => 0);
      cells := map[];
      cur, codesize, status := 0, 0, S_OK;
      tr := Trail(seq(maxsection, _ => []), {},
                  (map i | 0 <= i < 10 + |addresses| :: LG(i) := []) + (map i | 0 <= i < maxpc :: PC(i) := []), []);
      cells0, globals0, prog := map[], [], [];
      new;
      FreshLabels(lg, pc, tr.chains);
      FreshStore(al, pos, ofs, tr.log);
      assert Matched(tr.log, tr.links, tr.hist);
    }

    /** The step check: reports a pending forward local reference and otherwise forgets the local labels. */
    method CheckStep(secmatch: int) returns (code: int)
      requires status == S_OK ==> Valid()
      modifies `lg, `status, `tr
      ensures code == status && |lg| == old(|lg|) && |tr.log| == old(|tr.log|)
      ensures old(status) != S_OK ==> status == old(status) && lg == old(lg)
      ensures old(status) == S_OK ==> status == StepStatus(old(tr.hist), 1, cur, secmatch)
      ensures old(status) == S_OK && status == S_OK ==>
                Valid() && lg == Forgotten(old(lg)) && tr == old(tr).(hist := old(tr.hist) + [Reset])
    {
      hide StoreOk;
      hide LabelsOk;
      hide Matched;
      hide Unresolved;
      if status == S_OK {
        ghost var st := St();
        var i := 1;
        while i <= 9
          invariant 1 <= i <= 10 && |lg| == |old(lg)|
          invariant forall j :: 1 <= j < i ==> old(lg[j]) <= 0
          invariant forall j :: 0 <= j < |lg| ==> lg[j] == if 1 <= j < i then 0 else old(lg[j])
          invariant StepStatus(tr.hist, 1, cur, secmatch) == StepStatus(tr.hist, i, cur, secmatch)
          invariant status == S_OK && tr == old(tr)
        {
          SlotWaits(al, st, tr, LG(i));
          if lg[i] > 0 {
            status := S_UNDEF_L + i;
            return status;
          }
          lg := lg[i := 0];
          i := i + 1;
        }
        assert lg == Forgotten(old(lg));
        AddReset(st.lg, st.pc, st.cells, tr.chains, tr.hist);
        MatchedReset(tr.log, tr.links, tr.hist);
        tr := tr.(hist := tr.hist + [Reset]);
        if secmatch >= 0 && cur != secmatch {
          status := S_MATCH_SEC + cur;
        }
      }
      code := status;
    }

    /** Where the latest definition of a pc label is: after linking the place at which pass 3 reaches it,
        before that pass 1's estimate within its section. */
    ghost predicate PcOffset(x: int, n: nat, r: int)
      reads this
    {
      exists s: nat, k: nat ::
        && EventItem(tr.log, s, k, Def(x, PC(n)))
        && (Linked() ==> ReachedAt(prog, First(tr.log, s) + k, r))
        && (Valid() ==> r == tr.log[s][k].est)
    }

    /** The offset of a pc label; -1 when it has been referred to but not defined, -2 when nothing
        mentions it or there is no such label. */
    method GetPcLabel(n: nat) returns (r: int)
      requires Valid() || Linked()
      ensures r == -2 <==> n >= |pc| || !Mentioned(tr.hist, PC(n))
      ensures r == -1 <==> n < |pc| && Mentioned(tr.hist, PC(n)) && LatestDef(tr.hist, |tr.hist|, PC(n)).None?
      ensures r >= 0 <==> n < |pc| && LatestDef(tr.hist, |tr.hist|, PC(n)).Some?
      ensures r >= 0 ==> PcOffset(LatestDef(tr.hist, |tr.hist|, PC(n)).value, n, r)
    {
      hide Valid;
      hide Linked;
      hide LatestDef;
      hide PcOffset;
      hide Mentioned;
      if n < |pc| {
        PcSlot(n);
        if pc[n] < 0 { return cells[-pc[n]]; }
        if pc[n] > 0 { return -1; }
      }
      return -2;
    }

    lemma PcSlot(n: nat)
      requires n < |pc| && (Valid() || Linked())
      ensures pc[n] == 0 <==> !Mentioned(tr.hist, PC(n))
      ensures LatestDef(tr.hist, |tr.hist|, PC(n)) == if pc[n] < 0 then Some(-pc[n]) else None
      ensures pc[n] < 0 ==> -pc[n] in cells && cells[-pc[n]] >= 0 && PcOffset(-pc[n], n, cells[-pc[n]])
    {
      hide Prepared;
      hide StoreOk;
      hide LabelsOk;
      hide LinkInv;
      hide PcOffset;
      hide LatestDef;
      if Valid() { InvSlots(al, St(), tr); }
      hide Valid;
      hide Linked;
      assert SlotOk(tr.hist, Slot(lg, pc, PC(n)), PC(n));
      SlotUnused(tr.hist, |tr.hist|, PC(n));
      if pc[n] < 0 { PcPlace(n); }
    }

    lemma PcPlace(n: nat)
      requires n < |pc| && (Valid() || Linked()) && pc[n] < 0
      requires LatestDef(tr.hist, |tr.hist|, PC(n)) == Some(-pc[n])
      ensures -pc[n] in cells && cells[-pc[n]] >= 0 && PcOffset(-pc[n], n, cells[-pc[n]])
    {
      hide Prepared;
      hide StoreOk;
      hide LabelsOk;
      hide LinkInv;
      hide LatestDef;
      hide SlotsFinal;
      hide ReachedAt;
      LatestIsDef(tr.hist, |tr.hist|, PC(n));
      var e := Def(-pc[n], PC(n));
      var s: nat, k: nat :| EventItem(tr.log, s, k, e);
      hide Matched;
      if Valid() { EstimateAt(s, k); }
      if Linked() { OffsetAt(s, k); }
    }

    lemma EstimateAt(s: nat, k: nat)
      requires Valid() && s < |tr.log| && k < |tr.log[s]| && tr.log[s][k].a.IsLabel()
      ensures tr.log[s][k].at in cells && cells[tr.log[s][k].at] == tr.log[s][k].est >= 0
    {
      hide LabelsOk;
      hide Matched;
      hide LogOk;
      assert CellOk(cells, tr.links, tr.log[s][k]);
      assert SectionOk(al, s, pos[s], ofs[s], tr.log[s]);
      hide StoreOk;
      Ascending(al, s * BIAS, tr.log[s], k, k);
    }

    lemma OffsetAt(s: nat, k: nat)
      requires Linked() && s < |tr.log| && k < |tr.log[s]| && tr.log[s][k].a.IsLabel()
      ensures tr.log[s][k].at in cells && cells[tr.log[s][k].at] >= 0
      ensures ReachedAt(prog, First(tr.log, s) + k, cells[tr.log[s][k].at])
    {
      hide Ready;
      hide Program;
      hide LinkInv;
      hide Final;
      hide Code;
      hide RefsFinal;
      hide SlotsFinal;
      RefCells(al, St0(), tr.links, tr.log, |globals|, prog, cells, |prog|, s, k);
      var i := First(tr.log, s) + k;
      LabelOffsetIsPosition(s, k, 0);
      forall base ensures |Code(prog, base, i)| == cells[tr.log[s][k].at] {
        LabelOffsetIsPosition(s, k, base);
      }
    }
  }

  /** Pass 3 has written `offset` bytes when it reaches command i, wherever the buffer lies. */
  ghost predicate ReachedAt(prog: seq<Cmd>, i: nat, offset: int) {
    i < |prog| && forall base :: |Code(prog, base, i)| == offset
  }
}
