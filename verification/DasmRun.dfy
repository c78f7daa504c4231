/**
  Whole runs of the encoder: what any sequence of puts and step checks comes to,
  said without the encoder's buffers, and the code that a run ends with.
 */
module DasmRun {
  import opened Common
  import opened DasmCode
  import opened DasmLabels
  import opened DasmActions
  import opened DasmStore
  import opened DasmFlat
  import opened DasmBytes
  import opened DasmEncoder

  /** What a client does between set-up and linking. */
  datatype Step = PutStep(start: nat, args: nat -> Int32) | CheckStep(secmatch: int)

  predicate StepOk(al: ActionList, step: Step) {
    step.PutStep? ==> Listing(al, step.start, step.args, 0, [])
  }

  predicate ScriptOk(al: ActionList, script: seq<Step>) {
    forall i :: 0 <= i < |script| ==> StepOk(al, script[i])
  }

  /** A run goes on with the items of each section, the label history and the current section; or
      a check has stopped it; or a section has outgrown its 24 bit index. */
  datatype Run = Going(log: seq<seq<Item>>, hist: seq<Event>, cur: nat) | Stopped(status: int) | Full

  /** The items a put adds to the current section. */
  ghost function PutItems(al: ActionList, r: Run, step: Step): seq<Item>
    requires r.Going? && r.cur < |r.log| && step.PutStep? && StepOk(al, step)
  {
    Recorded(al, step.start, step.args, EndAt(r.cur * BIAS, r.log[r.cur]), EndEst(r.log[r.cur]))
  }

  ghost function PutRun(al: ActionList, lim: Limits, r: Run, step: Step): Run
    requires r.Going? && r.cur < |r.log| && step.PutStep? && StepOk(al, step)
  {
    var items := PutItems(al, r, step);
    var last := items[|items|-1];
    if last.at >= r.cur * BIAS + BIAS then Full
    else if Check(items, r.hist, lim) != S_OK then Stopped(Check(items, r.hist, lim))
    else Going(r.log[r.cur := r.log[r.cur] + items], r.hist + Events(items),
               if last.a.Section? then last.a.n else r.cur)
  }

  ghost function StepRun(al: ActionList, lim: Limits, r: Run, step: Step): Run
    requires StepOk(al, step)
  {
    if !r.Going? || r.cur >= |r.log| then r
    else match step
      case PutStep(_, _) => PutRun(al, lim, r, step)
      case CheckStep(secmatch) =>
        var status := StepStatus(r.hist, 1, r.cur, secmatch);
        if status != S_OK then Stopped(status) else Going(r.log, r.hist + [Reset], r.cur)
  }

  /** The first n steps. */
  ghost function Replay(al: ActionList, lim: Limits, r: Run, script: seq<Step>, n: nat): Run
    requires ScriptOk(al, script) && n <= |script|
  {
    if n == 0 then r else StepRun(al, lim, Replay(al, lim, r, script, n - 1), script[n-1])
  }

  lemma {:induction false} ReplayStays(al: ActionList, lim: Limits, r: Run, script: seq<Step>, n: nat, m: nat)
    requires ScriptOk(al, script) && n <= m <= |script| && !Replay(al, lim, r, script, n).Going?
    ensures Replay(al, lim, r, script, m) == Replay(al, lim, r, script, n)
    decreases m
  {
    hide StepRun;
    if n < m {
      ReplayStays(al, lim, r, script, n, m - 1);
      StoppedStays(al, lim, Replay(al, lim, r, script, m - 1), script[m-1]);
    }
  }

  lemma StoppedStays(al: ActionList, lim: Limits, r: Run, step: Step)
    requires StepOk(al, step) && !r.Going?
    ensures StepRun(al, lim, r, step) == r
  {
  }

  ghost predicate SectionsOk(lim: Limits, r: Run) {
    r.Going? ==> r.cur < |r.log| == lim.sections
  }

  /** A run always has a current section. */
  lemma {:induction false} ReplayInRange(al: ActionList, lim: Limits, r: Run, script: seq<Step>, n: nat)
    requires ScriptOk(al, script) && n <= |script| && SectionsOk(lim, r)
    ensures SectionsOk(lim, Replay(al, lim, r, script, n))
  {
    hide PutRun;
    hide StepStatus;
    if n > 0 {
      ReplayInRange(al, lim, r, script, n - 1);
      var before := Replay(al, lim, r, script, n - 1);
      if before.Going? && script[n-1].PutStep? { PutInRange(al, lim, before, script[n-1]); }
    }
  }

  lemma PutInRange(al: ActionList, lim: Limits, r: Run, step: Step)
    requires r.Going? && SectionsOk(lim, r) && step.PutStep? && StepOk(al, step)
    ensures SectionsOk(lim, PutRun(al, lim, r, step))
  {
    hide Check;
    hide Events;
    var items := PutItems(al, r, step);
    var last := |items| - 1;
    if Check(items, r.hist, lim) == S_OK {
      var _ := CheckMeans(items, r.hist, lim);
      assert !RefusedAt(items, r.hist, lim, last);
    }
  }

  /** After a step check no local reference waits. */
  lemma CheckedRunSettles(al: ActionList, lim: Limits, r: Run, script: seq<Step>, n: nat, i: nat)
    requires ScriptOk(al, script) && 0 < n <= |script| && SectionsOk(lim, r)
    requires Replay(al, lim, r, script, n).Going? && script[n-1].CheckStep? && 1 <= i < 10
    ensures !Unresolved(Replay(al, lim, r, script, n).hist, LG(i))
  {
    hide Resolve;
    hide PutRun;
    ReplayInRange(al, lim, r, script, n - 1);
    var hist := Replay(al, lim, r, script, n - 1).hist;
    StepPasses(hist, 1, Replay(al, lim, r, script, n - 1).cur, script[n-1].secmatch, i);
    forall t: nat, x: int ensures PendingRef(hist + [Reset], t, x, LG(i)) ==> PendingRef(hist, t, x, LG(i)) {
      if t < |hist| && hist[t].Ref? { ResolveExtends(hist, Reset, t); }
    }
  }

  lemma {:induction false} StepPasses(hist: seq<Event>, i: nat, cur: nat, secmatch: int, n: nat)
    requires i <= n < 10 && StepStatus(hist, i, cur, secmatch) == S_OK
    ensures !Unresolved(hist, LG(n))
    decreases 10 - i
  {
    hide Unresolved;
    if i < n { StepPasses(hist, i + 1, cur, secmatch, n); }
  }

  /** Why a step stops a run: a put has an item that is refused after the ones before it, or a step
      check finds a local reference that waits or the wrong section. */
  ghost predicate Explains(al: ActionList, lim: Limits, r: Run, step: Step, status: int)
    requires StepOk(al, step) && r.Going? && r.cur < |r.log|
  {
    match step
    case PutStep(_, _) =>
      exists j: nat :: RefusedAt(PutItems(al, r, step), r.hist, lim, j) && status == ErrorCode(PutItems(al, r, step)[j])
    case CheckStep(secmatch) =>
      || (exists i: nat :: 1 <= i < 10 && Unresolved(r.hist, LG(i)) && status == S_UNDEF_L + i)
      || (secmatch >= 0 && r.cur != secmatch && status == S_MATCH_SEC + r.cur)
  }

  lemma StepStopped(al: ActionList, lim: Limits, r: Run, step: Step)
    requires StepOk(al, step) && r.Going? && r.cur < |r.log| && StepRun(al, lim, r, step).Stopped?
    ensures Explains(al, lim, r, step, StepRun(al, lim, r, step).status)
  {
    hide RefusedAt;
    hide Check;
    hide Unresolved;
    if step.PutStep? {
      var j := CheckMeans(PutItems(al, r, step), r.hist, lim);
    } else {
      StepReason(r.hist, 1, r.cur, step.secmatch);
    }
  }

  lemma {:induction false} StepReason(hist: seq<Event>, i: nat, cur: nat, secmatch: int)
    requires i <= 10 && StepStatus(hist, i, cur, secmatch) != S_OK
    ensures var status := StepStatus(hist, i, cur, secmatch);
            || (exists n: nat :: i <= n < 10 && Unresolved(hist, LG(n)) && status == S_UNDEF_L + n)
            || (secmatch >= 0 && cur != secmatch && status == S_MATCH_SEC + cur)
    decreases 10 - i
  {
    hide Unresolved;
    if i < 10 && !Unresolved(hist, LG(i)) { StepReason(hist, i + 1, cur, secmatch); }
  }

  /** A run is stopped by one of its steps, for one of these reasons. */
  lemma {:induction false} StoppedBecause(al: ActionList, lim: Limits, r: Run, script: seq<Step>, n: nat)
    returns (i: nat)
    requires ScriptOk(al, script) && n <= |script| && r.Going? && Replay(al, lim, r, script, n).Stopped?
    ensures i < n && Replay(al, lim, r, script, i).Going?
    ensures var before := Replay(al, lim, r, script, i);
            before.cur < |before.log| && Explains(al, lim, before, script[i], Replay(al, lim, r, script, n).status)
  {
    hide Explains;
    hide PutRun;
    hide StepStatus;
    var before := Replay(al, lim, r, script, n - 1);
    if before.Going? {
      i := n - 1;
      StepStopped(al, lim, before, script[n-1]);
    } else {
      StoppedStays(al, lim, before, script[n-1]);
      i := StoppedBecause(al, lim, r, script, n - 1);
    }
  }

  lemma InvEnds(al: ActionList, st: Store, tr: Trail, s: nat)
    requires Inv(al, st, tr) && s < |tr.log| && |st.pos| == |st.ofs| == |tr.log|
    ensures st.pos[s] == EndAt(s * BIAS, tr.log[s]) && st.ofs[s] == EndEst(tr.log[s])
  {
    assert SectionOk(al, s, st.pos[s], st.ofs[s], tr.log[s]);
  }

  ghost function State(d: Dasm): Run
    reads d
  {
    Going(d.tr.log, d.tr.hist, d.cur)
  }

  /** One put of a run. */
  method RunPut(d: Dasm, step: Step) returns (full: bool)
    requires d.status == S_OK && d.Valid() && step.PutStep? && StepOk(d.al, step)
    modifies d
    ensures d.Lim() == old(d.Lim())
    ensures var r := StepRun(d.al, old(d.Lim()), old(State(d)), step);
            && (full <==> r == Full)
            && (d.status == S_OK && !full ==> d.Valid() && r == State(d))
            && (d.status != S_OK && !full ==> r == Stopped(d.status))
    ensures d.globals == old(d.globals)
  {
    hide Inv;
    hide Listing;
    hide Record;
    hide Check;
    hide Complete;
    InvEnds(d.al, d.St(), d.tr, d.cur);
    var items := Recorded(d.al, step.start, step.args, d.pos[d.cur], d.ofs[d.cur]);
    assert items == PutItems(d.al, State(d), step);
    full := items[|items|-1].at >= d.cur * BIAS + BIAS;
    if !full { d.Put(step.start, step.args); }
  }

  /** One step check of a run. */
  method RunCheck(d: Dasm, step: Step)
    requires d.status == S_OK && d.Valid() && step.CheckStep?
    modifies d
    ensures d.Lim() == old(d.Lim())
    ensures var r := StepRun(d.al, old(d.Lim()), old(State(d)), step);
            && (d.status == S_OK ==> d.Valid() && r == State(d))
            && (d.status != S_OK ==> r == Stopped(d.status))
    ensures d.globals == old(d.globals)
  {
    hide Inv;
    hide StepStatus;
    hide Complete;
    var _ := d.CheckStep(step.secmatch);
  }

  /** The puts and step checks of a run, up to the first error or exhausted section: the encoder ends
      in the state the run comes to, or with the status that stopped it. */
  method RunSteps(d: Dasm, script: seq<Step>) returns (ok: bool)
    requires d.status == S_OK && d.Valid() && ScriptOk(d.al, script)
    modifies d
    ensures d.Lim() == old(d.Lim()) && d.globals == old(d.globals)
    ensures var r := Replay(d.al, old(d.Lim()), old(State(d)), script, |script|);
            && (ok <==> r.Going?)
            && (ok ==> d.status == S_OK && d.Valid() && r == State(d))
            && (!ok ==> r == Full || (r == Stopped(d.status) && d.status != S_OK))
  {
    hide Dasm.Valid;
    hide StepOk;
    hide StepRun;
    ghost var lim, start := d.Lim(), State(d);
    for i := 0 to |script|
      invariant d.status == S_OK && d.Valid() && d.Lim() == lim && d.globals == old(d.globals)
      invariant Replay(d.al, lim, start, script, i) == State(d)
    {
      assert StepOk(d.al, script[i]);
      var full := false;
      if script[i].PutStep? { full := RunPut(d, script[i]); } else { RunCheck(d, script[i]); }
      assert Replay(d.al, lim, start, script, i + 1)
             == StepRun(d.al, lim, Replay(d.al, lim, start, script, i), script[i]);
      if full || d.status != S_OK {
        ReplayStays(d.al, lim, start, script, i + 1, |script|);
        return false;
      }
    }
    return true;
  }

  /** Every relative reference of the unit that stands for a definition leads to that label. */
  ghost predicate AllBranchesLand(log: seq<seq<Item>>, hist: seq<Event>, prog: seq<Cmd>, base: int, code: seq<byte>) {
    forall s: nat, k: nat, t: nat {:trigger EventItem(log, s, k, hist[t])} ::
      t < |hist| && EventItem(log, s, k, hist[t]) && log[s][k].a.IsRel() && Resolve(hist, t).Some?
      ==> Reaches(log, prog, base, code, s, k, Def(Resolve(hist, t).value, hist[t].key))
  }

  lemma LinkedBranchesLand(d: Dasm, base: int)
    requires d.Linked() && d.codesize < 0x8000_0000
    ensures AllBranchesLand(d.tr.log, d.tr.hist, d.prog, base, Code(d.prog, base, |d.prog|))
  {
    hide Reaches;
    hide Dasm.Linked;
    hide Code;
    hide Resolve;
    forall s: nat, k: nat, t: nat | t < |d.tr.hist| && EventItem(d.tr.log, s, k, d.tr.hist[t])
                                    && d.tr.log[s][k].a.IsRel() && Resolve(d.tr.hist, t).Some?
      ensures Reaches(d.tr.log, d.prog, base, Code(d.prog, base, |d.prog|), s, k,
                      Def(Resolve(d.tr.hist, t).value, d.tr.hist[t].key))
    {
      d.BranchReachesLabel(s, k, t, base, Code(d.prog, base, |d.prog|));
    }
  }

  /** The state of a fresh encoder. */
  ghost function Begin(maxsection: nat): Run {
    Going(seq(maxsection, _ => []), [], 0)
  }

  /** Any run: puts and step checks in any order, then link and encode.  It ends with code just when no
      step stops it and no pc label stays undefined; then there is no phase error, and every relative
      reference that stands for a definition leads to that label. */
  method Assemble(actions: ActionList, maxsection: nat, addresses: seq<int>, maxpc: nat, script: seq<Step>, base: int)
    returns (d: Dasm, buffer: array<byte>, ok: bool)
    requires maxsection > 0 && ScriptOk(actions, script)
    ensures var r := Replay(actions, Limits(maxsection, 10 + |addresses|, maxpc), Begin(maxsection), script, |script|);
            && (ok <==> r.Going? && LinkStatus(r.hist, 0, maxpc) == S_OK)
            && (ok ==>
                  && r == State(d) && d.al == actions && d.globals0 == seq(10, _ => 0) + addresses
                  && d.Linked() && buffer[..] == Code(d.prog, base, |d.prog|)
                  && AllItemBytes(r.log, d.prog, base, buffer[..])
                  && AllRefBytes(r.log, r.hist, d.prog, d.globals0, base, buffer[..])
                  && (buffer.Length < 0x8000_0000 ==> AllBranchesLand(r.log, r.hist, d.prog, base, buffer[..])))
  {
    hide Dasm.Valid;
    hide Dasm.Linked;
    hide Replay;
    hide StepOk;
    hide LinkStatus;
    hide AllBranchesLand;
    hide AllItemBytes;
    hide AllRefBytes;
    hide Code;
    d := new Dasm(actions, maxsection, addresses, maxpc);
    buffer := new byte[0];
    assert State(d) == Begin(maxsection);
    ok := RunSteps(d, script);
    if !ok { return; }
    var code, size := d.Link();
    if code != S_OK { return d, buffer, false; }
    if size < 0x8000_0000 { LinkedBranchesLand(d, base); }
    LinkedSize(d, base);
    buffer := new byte[size];
    code := d.Encode(buffer, base);
    assert code == S_OK;
    assert buffer[..] == buffer[..d.codesize];
    ok := true;
  }

  // ---------------------------------------------------------------- two runs

  /** `jmp >1` and no label 1. */
  const PENDING: ActionList := [252, 0xe9, 244, 247, 255]

  function PendingItems(): seq<Item> {
    [Item(0, Start, 0, 0, 0), Item(0, Literal(0xe9, true), 0, 1, 0), Item(2, RelLG(247), 0, 1, 1),
     Item(4, Stop, 0, 3, 5)]
  }

  lemma PendingListed(args: nat -> Int32)
    ensures Listing(PENDING, 0, args, 0, [])
    ensures Recorded(PENDING, 0, args, 0, 0) == PendingItems()
  {
    assert Decode(PENDING, 4) == Stop && Decode(PENDING, 2) == RelLG(247) && Decode(PENDING, 0) == Literal(0xe9, true);
    assert Listing(PENDING, 4, args, 0, []);
    assert [] + [0xe9] == [0xe9];
    assert Listing(PENDING, 2, args, 0, [0xe9]);
    assert Record(PENDING, 4, args, 0, [], 3, 5) == [PendingItems()[3]];
    assert Record(PENDING, 2, args, 0, [0xe9], 1, 1) == [PendingItems()[2], PendingItems()[3]];
  }

  /** Label 1, the address of the next label 1, the address of the previous one. */
  const HIDDEN: ActionList := [248, 1, 246, 247, 246, 1, 255]

  function HiddenItems(): seq<Item> {
    [Item(0, Start, 0, 0, 0), Item(0, LabelLG(1), 0, 1, 0), Item(2, AddrLG(247), 0, 2, 0), Item(4, AddrLG(1), 0, 3, 4),
     Item(6, Stop, 0, 4, 8)]
  }

  lemma HiddenListed(args: nat -> Int32)
    ensures Listing(HIDDEN, 0, args, 0, [])
    ensures Recorded(HIDDEN, 0, args, 0, 0) == HiddenItems()
  {
    var it := HiddenItems();
    assert Decode(HIDDEN, 6) == Stop && Decode(HIDDEN, 4) == AddrLG(1) && Decode(HIDDEN, 2) == AddrLG(247);
    assert Decode(HIDDEN, 0) == LabelLG(1);
    hide Decode;
    assert Listing(HIDDEN, 6, args, 0, []);
    assert Listing(HIDDEN, 4, args, 0, []);
    assert Listing(HIDDEN, 2, args, 0, []);
    assert Record(HIDDEN, 6, args, 0, [], 4, 8) == [it[4]];
    assert Record(HIDDEN, 4, args, 0, [], 3, 4) == [it[3], it[4]];
    assert Record(HIDDEN, 2, args, 0, [], 2, 0) == [it[2], it[3], it[4]];
  }

  lemma HiddenCheck(lim: Limits)
    requires lim.lg >= 10
    ensures Check(HiddenItems(), [], lim) == S_RANGE_LG + 5
  {
    var it, none: seq<Event> := HiddenItems(), [];
    var d, r := Def(1, LG(1)), Ref(2, LG(1), true);
    assert Hides(r, LG(1)) && [d, r][1] == r;
    assert !Visible([d, r], LG(1));
    assert it[3..][0] == it[3] && Check(it[3..], [d, r], lim) == S_RANGE_LG + 5;
    assert it[2..][1..] == it[3..] && [d] + [r] == [d, r];
    assert Check(it[2..], [d], lim) == S_RANGE_LG + 5;
    assert it[1..][1..] == it[2..] && none + [d] == [d];
    assert Check(it[1..], none, lim) == S_RANGE_LG + 5;
    assert none + none == none;
  }

  /** A definition followed by a forward reference to the same label: a backward reference behind them is
      refused, although the definition precedes it. */
  lemma ForwardHidesDefinition(args: nat -> Int32, lim: Limits)
    requires lim.sections == 1 && lim.lg >= 10
    ensures StepOk(HIDDEN, PutStep(0, args))
    ensures PutItems(HIDDEN, Begin(1), PutStep(0, args)) == HiddenItems()
    ensures Replay(HIDDEN, lim, Begin(1), [PutStep(0, args)], 1) == Stopped(S_RANGE_LG + 5)
    ensures LatestDef([Def(1, LG(1)), Ref(2, LG(1), true)], 2, LG(1)) == Some(1)
  {
    hide Check;
    hide Recorded;
    hide Listing;
    HiddenListed(args);
    HiddenCheck(lim);
    assert Begin(1).log == [[]];
    assert Replay(HIDDEN, lim, Begin(1), [PutStep(0, args)], 0) == Begin(1);
    assert LatestDef([Def(1, LG(1)), Ref(2, LG(1), true)], 1, LG(1)) == Some(1);
  }

  lemma PendingCheck(lim: Limits)
    ensures Check(PendingItems(), [], lim) == S_OK
  {
    var it, none: seq<Event> := PendingItems(), [];
    var r := Ref(1, LG(1), true);
    assert none + none == none && [r] + none == [r] && none + [r] == [r];
    assert Check(it[4..], [r], lim) == S_OK;
    assert it[3..][1..] == it[4..];
    assert Check(it[3..], [r], lim) == S_OK;
    assert it[2..][1..] == it[3..];
    assert Check(it[2..], none, lim) == S_OK;
    assert it[1..][1..] == it[2..];
    assert Check(it[1..], none, lim) == S_OK;
  }

  lemma PendingEvents()
    ensures Events(PendingItems()) == [Ref(1, LG(1), true)]
  {
    var it := PendingItems();
    EventsFirst(it);
    EventsFirst(it[1..]);
    EventsFirst(it[2..]);
    EventsFirst(it[3..]);
  }

  /** A forward reference to a label that never comes: pass 1 accepts it. */
  lemma PendingRun(args: nat -> Int32, lim: Limits)
    requires lim.sections == 1 && lim.lg >= 10
    ensures StepOk(PENDING, PutStep(0, args))
    ensures Replay(PENDING, lim, Begin(1), [PutStep(0, args)], 1) == Going([PendingItems()], [Ref(1, LG(1), true)], 0)
  {
    hide Recorded;
    hide Listing;
    hide Check;
    hide Events;
    PendingListed(args);
    PendingCheck(lim);
    PendingEvents();
    var it, none: seq<Event> := PendingItems(), [];
    assert Begin(1).log == [[]] && [] + it == it;
    assert [[]][0 := it] == [it];
    assert none + [Ref(1, LG(1), true)] == [Ref(1, LG(1), true)];
    assert Replay(PENDING, lim, Begin(1), [PutStep(0, args)], 0) == Begin(1);
  }

  function PendingProgram(): seq<Cmd> {
    [Nop, Emit(0xe9), Stray(0xe9, None, 0), Nop]
  }

  lemma PendingCommands(d: Dasm)
    requires d.Linked() && d.al == PENDING && State(d) == Going([PendingItems()], [Ref(1, LG(1), true)], 0)
    ensures d.prog == PendingProgram()
  {
    hide LinkInv;
    hide WellFormed;
    hide StoreOk;
    hide Final;
    hide Dasm.GlobalsKept;
    hide Dasm.SlotsFinal;
    var log, it := d.tr.log, PendingItems();
    assert FinalRef(d.cells0, d.tr.hist, 0);
    RootCell(d.al, d.St0(), d.tr.links, log);
    assert Flat(log, 0) == [] && Flat(log, 1) == [] + it;
    assert forall v :: !LabelHere(log, v);
    hide Ready;
    assert d.prog[2] == RelCmd(d.al, log, d.cells0, d.globals0, it[2], CellValue(d.cells0, 1));
  }

  lemma PendingCode(base: int)
    ensures var prog := PendingProgram();
            Short(prog, 2) && Final(prog, 4) == 2 && Code(prog, base, 4) == [0xeb, 0xfe]
  {
    var prog := PendingProgram();
    assert Final(prog, 0) == 0 && Final(prog, 1) == 0 && Final(prog, 2) == 1;
    assert StrayDistance(prog, 2, None, 0) == -5;
    assert Short(prog, 2) && ShrinkOf(prog, 2) == 3;
    assert Final(prog, 3) == 2;
    assert Code(prog, base, 0) == [] && Code(prog, base, 1) == [] && Code(prog, base, 2) == [0xe9];
    assert LE(-2, 1) == [0xfe];
    assert Code(prog, base, 3) == [0xeb] + [0xfe];
    assert Final(prog, 4) == 2;
  }

  /** The step check would report it; without one, the unit links and encodes, and the branch, which no
      label answers, leads to offset 0. */
  method PendingReferenceLinks(base: int) returns (d: Dasm, buffer: array<byte>)
    ensures d.Linked() && State(d) == Going([PendingItems()], [Ref(1, LG(1), true)], 0)
    ensures Unresolved(d.tr.hist, LG(1)) && StepStatus(d.tr.hist, 1, d.cur, -1) == S_UNDEF_L + 1
    ensures forall v :: !LabelHere(d.tr.log, v)
    ensures buffer[..] == [0xeb, 0xfe] && LandsOn(d.prog, buffer[..], 2, 0)
  {
    hide Dasm.Linked;
    hide Replay;
    hide Code;
    hide AllBranchesLand;
    var args: nat -> Int32 := _ => 0;
    PendingRun(args, Limits(1, 10, 0));
    var ok;
    d, buffer, ok := Assemble(PENDING, 1, [], 0, [PutStep(0, args)], base);
    assert ok;
    PendingCommands(d);
    PendingCode(base);
    assert PendingRef(d.tr.hist, 0, 1, LG(1));
    PendingLands();
  }

  lemma PendingLands()
    ensures LandsOn(PendingProgram(), [0xeb, 0xfe], 2, 0)
  {
    PendingCode(0);
    var prog := PendingProgram();
    assert Final(prog, 3) == 2;
    hide Final;
    assert [0xeb, 0xfe][1..2] == [0xfe];
    assert Unsigned([0xfe]) == 0xfe && Pow256(1) == 256;
  }

  lemma LinkedSize(d: Dasm, base: int)
    requires d.Linked()
    ensures 0 <= d.codesize == |Code(d.prog, base, |d.prog|)|
  {
    hide Ready;
    hide LinkInv;
    hide Program;
    hide Code;
    hide Final;
    CodeLength(d.prog, base, |d.prog|);
  }
}
