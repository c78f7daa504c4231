/**
  The register shuffle at the head of a side trace: values the parent trace
  left in its registers are moved to the registers the side trace expects them
  in.  Code is emitted backwards: what is emitted first runs last.
 */
module RegShuffle {

  const NUM_REGS: nat := 32
  const NUM_GPR: nat := 16

  type Reg = r: nat | r < NUM_REGS
  type File = f: seq<int> | |f| == NUM_REGS witness seq(NUM_REGS, _ => 0)

  predicate IsGpr(r: Reg) { r < NUM_GPR }

  /** dst := src. */
  datatype Mov = Mov(dst: Reg, src: Reg)

  function Step(m: Mov, f: File): File {
    f[m.dst := f[m.src]]
  }

  /** Running emitted code: the move emitted last comes first. */
  function Exec(code: seq<Mov>, f: File): File {
    if code == [] then f else Exec(code[..|code| - 1], Step(code[|code| - 1], f))
  }

  /** Register x is the target of a value of some register of a set. */
  ghost predicate WantedIn(x: Reg, from: set<Reg>, sload: map<Reg, nat>, reg: map<nat, Reg>) {
    exists p :: p in from && p in sload && sload[p] in reg && reg[sload[p]] == x
  }

  /** Where each value is wanted: parent register to instruction to target register. */
  ghost predicate Targets(live: set<Reg>, sload: map<Reg, nat>, reg: map<nat, Reg>) {
    && (forall q :: q in live ==> q in sload && sload[q] in reg)
    && (forall p, q :: p in live && q in live && p != q ==> reg[sload[p]] != reg[sload[q]])
  }

  /** The values of the parent registers in f0 are in their targets in f, and the settled registers still hold
      theirs. */
  ghost predicate Placed(f0: File, f: File, settled: set<Reg>, live: set<Reg>, sload: map<Reg, nat>, reg: map<nat, Reg>)
    requires Targets(live, sload, reg)
  {
    (forall d :: d in settled ==> f[d] == f0[d]) && (forall q :: q in live ==> f[reg[sload[q]]] == f0[q])
  }

  /** Lowest register of a set: rset_pickbot. */
  method PickBot(s: set<Reg>) returns (r: Reg)
    requires s != {}
    ensures r in s && forall x :: x in s ==> r <= x
  {
    var i := 0;
    ghost var w :| w in s;
    while i !in s
      invariant i <= w < NUM_REGS && forall x :: x in s ==> i <= x
      decreases NUM_REGS - i
    {
      i := i + 1;
    }
    return i;
  }

  class Shuffler {
    const sload: map<Reg, nat>
    var free: set<Reg>
    var live: set<Reg>
    var allow: set<Reg>
    var reg: map<nat, Reg>
    var cost: map<Reg, nat>
    var code: seq<Mov>
    /** Parent registers whose value is already where it is wanted or moved from there by emitted code. */
    ghost var settled: set<Reg>

    constructor (sload: map<Reg, nat>, free: set<Reg>, live: set<Reg>, allow: set<Reg>, reg: map<nat, Reg>,
                 cost: map<Reg, nat>,
                 ghost settled: set<Reg>)
      ensures this.sload == sload && this.free == free && this.live == live && this.allow == allow && this.reg == reg
              && this.cost == cost
      ensures code == [] && this.settled == settled
    {
      this.sload, this.free, this.live, this.allow, this.reg, this.cost := sload, free, live, allow, reg, cost;
      this.code, this.settled := [], settled;
    }

    /** Targets are distinct, allocated and of the right kind, and nothing else is allocated; settled registers are
        free and out of bounds. */
    ghost predicate Valid()
      reads this
    {
      && Targets(live, sload, reg)
      && (forall q :: q in live ==>
            var t := reg[sload[q]]; t !in free && t in cost && cost[t] == sload[q] && IsGpr(t) == IsGpr(q))
      && (forall x: Reg {:trigger WantedIn(x, live, sload, reg)} :: x !in free ==> WantedIn(x, live, sload, reg))
      && settled <= free && settled !! allow && settled !! live
    }

    /** Emit the move for a parent register that is free: nothing still to be placed is wanted there. */
    method Coalesce(rp: Reg)
      requires Valid() && rp in free && rp in live
      modifies this
      ensures Valid() && live == old(live) - {rp} && settled == old(settled) + {rp} && reg == old(reg)
              && allow == old(allow) - {rp}
      ensures free == old(free) + {old(reg)[sload[rp]]} && code == old(code) + [Mov(old(reg)[sload[rp]], rp)]
    {
      var r := reg[sload[rp]];
      live := live - {rp};
      allow := allow - {rp};
      free := free + {r};
      code := code + [Mov(r, rp)];
      settled := settled + {rp};
      forall x: Reg | x !in free ensures WantedIn(x, live, sload, reg) {
        assert WantedIn(x, old(live), sload, reg);
      }
    }

    /** ra_rename: what is wanted in down is wanted in up from here on. */
    method Rename(down: Reg, up: Reg)
      requires Valid() && down !in free && up in free && up !in live && up !in settled && IsGpr(down) == IsGpr(up)
      modifies this`reg, this`cost, this`free, this`code
      ensures Valid() && free == old(free) + {down} - {up} && code == old(code) + [Mov(down, up)]
      ensures down in old(cost) && reg == old(reg)[old(cost)[down] := up]
    {
      assert WantedIn(down, live, sload, reg);
      ghost var q :| q in live && q in sload && sload[q] in reg && reg[sload[q]] == down;
      var ref := cost[down];
      assert ref == sload[q];
      cost := cost[up := ref];
      reg := reg[ref := up];
      cost := cost - {down};
      free := free + {down};
      free := free - {up};
      code := code + [Mov(down, up)];
      forall p | p in live
        ensures p in sload && sload[p] in reg
        ensures var t := reg[sload[p]]; t !in free && t in cost && cost[t] == sload[p] && IsGpr(t) == IsGpr(p)
      {
        assert p != q ==> sload[p] != ref && old(reg)[sload[p]] != down && old(reg)[sload[p]] != up;
      }
      forall x: Reg | x !in free ensures WantedIn(x, live, sload, reg) {
        if x == up {
          assert q in live && reg[sload[q]] == x;
        } else {
          assert WantedIn(x, live, sload, old(reg));
          var p :| p in live && p in sload && sload[p] in old(reg) && old(reg)[sload[p]] == x;
          assert reg[sload[p]] == x;
        }
      }
    }

    /** What holds between the start, in state st, and now. */
    ghost predicate Since(st: Start)
      reads this
    {
      && Valid() && Targets(st.live, sload, st.reg) && live <= st.live && allow == st.allow - (st.live - live)
      && (forall x: Reg :: x !in st.free ==> x !in st.allow)
      && Finishes(code, settled, live, sload, reg, st.settled, st.live, st.reg)
      && (forall q :: q in live && !Spare(st, IsGpr(q)) ==> reg[sload[q]] == st.reg[sload[q]])
      && (forall cycle, kind {:trigger IsCycle(cycle, st.live, sload, st.reg, kind)} ::
            IsCycle(cycle, st.live, sload, st.reg, kind) && !Spare(st, kind) ==> cycle <= live && cycle !! free)
    }

    /** Repeatedly coalesce free live registers. */
    method CoalesceAll(ghost st: Start)
      requires Since(st)
      modifies this
      ensures Since(st) && free !! live && live <= old(live) && (old(free !! live) ==> live == old(live))
      ensures !old(free !! live) ==> |live| < |old(live)|
    {
      while free * live != {}
        invariant Since(st) && live <= old(live)
        invariant old(free !! live) ==> free !! live && live == old(live)
        invariant !old(free !! live) ==> !(free !! live) || |live| < |old(live)|
        decreases |live|
      {
        ghost var l := live;
        var rp := PickBot(free * live);
        assert rp in free && rp in live;
        CoalesceOne(rp, st);
        assert |live| < |l|;
      }
      assert forall x :: x in free && x in live ==> x in free * live;
    }

    method CoalesceOne(rp: Reg, ghost st: Start)
      requires Since(st) && rp in free && rp in live
      modifies this
      ensures Since(st) && live == old(live) - {rp} && |live| < |old(live)| <= |st.live|
    {
      hide Finishes;
      ghost var r := reg[sload[rp]];
      CoalesceFinishes(code, settled, live, sload, reg, st.settled, st.live, st.reg, rp);
      forall cycle, kind | IsCycle(cycle, st.live, sload, st.reg, kind) && !Spare(st, kind)
        ensures cycle <= live - {rp} && cycle !! free + {r}
      {
        CycleStays(cycle, kind, rp, live, free, sload, reg, st);
      }
      Coalesce(rp);
      Smaller(old(live), rp, st.live);
    }

    /** Rename with the record of the run kept. */
    method RenameOne(down: Reg, up: Reg, ghost st: Start)
      requires Since(st) && down !in free && up in free && up !in live && up !in settled && IsGpr(down) == IsGpr(up)
               && Spare(st, IsGpr(down))
      modifies this`reg, this`cost, this`free, this`code
      ensures Since(st) && free == old(free) + {down} - {up}
    {
      hide Finishes;
      hide Spare;
      hide IsCycle;
      assert WantedIn(down, live, sload, reg);
      ghost var q :| q in live && q in sload && sload[q] in reg && reg[sload[q]] == down;
      assert forall p :: p in live && p != q ==> sload[p] != sload[q];
      RenameFinishes(code, settled, live, sload, reg, st.settled, st.live, st.reg, q, up);
      CyclesStay(st, sload, live, free, down, up);
      Rename(down, up);
    }

    /** No live register of a kind is free. */
    ghost predicate NoneFree(kind: bool)
      reads this
    {
      forall x :: x in live && IsGpr(x) == kind ==> x !in free
    }

    /** Break a cycle by renaming one target to a spare register. */
    method BreakCycle(kind: bool, ghost st: Start) returns (ok: bool)
      requires Since(st) && NoneFree(kind) && exists q :: q in live && IsGpr(q) == kind
      modifies this`reg, this`cost, this`free, this`code
      ensures ok <==> Spare(st, kind)
      ensures ok ==> Since(st) && !NoneFree(kind) && (old(NoneFree(!kind)) ==> NoneFree(!kind))
      ensures !ok ==> Cyclic(st.live, sload, st.reg, kind)
    {
      hide Since;
      hide Valid;
      hide Spare;
      hide Cyclic;
      var work := set q | q in live && IsGpr(q) == kind;
      var tmpset := set t | t in free && t !in live && t in allow && IsGpr(t) == kind;
      SpareOrCycle(kind, st, work, tmpset);
      if tmpset == {} { return false; }
      var down := PickBot(work);
      var up := PickBot(tmpset);
      RenameOne(down, up, st);
      assert down in free && down in live;
      ok := true;
    }

    lemma SpareOrCycle(kind: bool, st: Start, work: set<Reg>, tmpset: set<Reg>)
      requires Since(st) && NoneFree(kind) && exists q :: q in live && IsGpr(q) == kind
      requires work == set q | q in live && IsGpr(q) == kind
      requires tmpset == set t | t in free && t !in live && t in allow && IsGpr(t) == kind
      ensures work != {} && (tmpset != {} <==> Spare(st, kind))
              && (tmpset == {} ==> Cyclic(st.live, sload, st.reg, kind))
      ensures forall t :: t in tmpset ==> t !in settled
    {
      hide Finishes;
      hide Spare;
      hide IsCycle;
      hide WantedIn;
      hide Cyclic;
      KindAllocated(live, free, sload, reg, kind, work);
      ghost var w :| w in live && IsGpr(w) == kind;
      assert w in work;
      NoSpareLeft(st, free, live, allow, kind, tmpset);
      if tmpset == {} { LiveIsCycle(st, sload, live, reg, kind, work); }
    }

    /** The shuffle loop.  It gives up (NYICOAL) exactly when some values of one kind of register form a cycle and no
        spare register of that kind can hold one of them meanwhile; otherwise the code performs the parallel copy. */
    method Shuffle() returns (ok: bool)
      requires Valid() && code == []
      requires forall x: Reg :: x !in free ==> x !in allow
      modifies this
      ensures ok ==> Moves(code, old(settled), old(live), sload, old(reg))
      ensures var st := old(Start(free, live, allow, reg, settled));
              ok <==> forall kind: bool {:trigger Spare(st, kind)} ::
                        Cyclic(st.live, sload, st.reg, kind) ==> Spare(st, kind)
    {
      hide Finishes;
      hide Spare;
      hide Cyclic;
      hide Valid;
      hide Moves;
      ghost var st := Start(free, live, allow, reg, settled);
      Starting(st);
      while true
        invariant Since(st)
        decreases |live|, free !! live
      {
        CoalesceAll(st);
        if live == {} { break; }
        assert NoneFree(true) && NoneFree(false);
        ghost var w :| w in live;
        if exists q :: q in live && IsGpr(q) {
          ok := BreakCycle(true, st);
          if !ok { return; }
        }
        if exists q :: q in live && !IsGpr(q) {
          ok := BreakCycle(false, st);
          if !ok { return; }
        }
        assert !(free !! live);
      }
      Finished(st);
      ok := true;
    }

    lemma Starting(st: Start)
      requires Valid() && code == [] && st == Start(free, live, allow, reg, settled)
      requires forall x: Reg :: x !in free ==> x !in allow
      ensures Since(st)
    {
      AtFirst(settled, live, sload, reg);
      hide Finishes;
      hide Spare;
      forall cycle, kind | IsCycle(cycle, st.live, sload, st.reg, kind) ensures cycle <= live && cycle !! free {
        forall q | q in cycle ensures q !in free { assert WantedIn(q, cycle, sload, st.reg); }
      }
    }

    lemma Finished(st: Start)
      requires Since(st) && live == {}
      ensures Moves(code, st.settled, st.live, sload, st.reg)
      ensures forall kind: bool {:trigger Spare(st, kind)} :: Cyclic(st.live, sload, st.reg, kind) ==> Spare(st, kind)
    {
      hide Spare;
      forall f: File ensures Placed(f, Exec(code, f), st.settled, st.live, sload, st.reg) {
        assert Placed(f, f, settled, live, sload, reg);
      }
    }
  }

  lemma CyclesStay(st: Start, sload: map<Reg, nat>, live: set<Reg>, free: set<Reg>, down: Reg, up: Reg)
    requires Spare(st, IsGpr(down))
    requires forall cycle, kind {:trigger IsCycle(cycle, st.live, sload, st.reg, kind)} ::
               IsCycle(cycle, st.live, sload, st.reg, kind) && !Spare(st, kind) ==> cycle <= live && cycle !! free
    ensures forall cycle, kind {:trigger IsCycle(cycle, st.live, sload, st.reg, kind)} ::
              IsCycle(cycle, st.live, sload, st.reg, kind) && !Spare(st, kind)
              ==> cycle <= live && cycle !! free + {down} - {up}
  {
    hide Spare;
  }

  lemma LiveIsCycle(st: Start, sload: map<Reg, nat>, live: set<Reg>, reg: map<nat, Reg>, kind: bool, work: set<Reg>)
    requires live <= st.live && work != {} && work == set q | q in live && IsGpr(q) == kind
    requires Targets(live, sload, reg) && Targets(st.live, sload, st.reg) && !Spare(st, kind)
    requires forall q :: q in live ==> IsGpr(reg[sload[q]]) == IsGpr(q)
    requires forall q :: q in live && !Spare(st, IsGpr(q)) ==> reg[sload[q]] == st.reg[sload[q]]
    requires forall q :: q in work ==> WantedIn(q, work, sload, reg)
    ensures Cyclic(st.live, sload, st.reg, kind)
  {
    hide Spare;
    forall q | q in work ensures WantedIn(q, work, sload, st.reg) {
      assert WantedIn(q, work, sload, reg);
    }
    assert IsCycle(work, st.live, sload, st.reg, kind);
  }

  /** The spare registers at a cycle are those there were at the start. */
  lemma NoSpareLeft(st: Start, free: set<Reg>, live: set<Reg>, allow: set<Reg>, kind: bool, tmpset: set<Reg>)
    requires live <= st.live && allow == st.allow - (st.live - live)
    requires forall x: Reg :: x !in st.free ==> x !in st.allow
    requires forall x: Reg :: IsGpr(x) == kind ==> x in live || x in free
    requires tmpset == set t | t in free && t !in live && t in allow && IsGpr(t) == kind
    ensures tmpset != {} <==> Spare(st, kind)
  {
    if Spare(st, kind) {
      var t :| t in st.free && t in st.allow && t !in st.live && IsGpr(t) == kind;
      assert t in tmpset;
    }
    if t :| t in tmpset { assert t in st.allow && t !in st.live; }
  }

  lemma Smaller(live: set<Reg>, rp: Reg, live0: set<Reg>)
    requires rp in live && live <= live0
    ensures |live - {rp}| < |live| <= |live0|
  {
    assert live0 == live + (live0 - live);
  }

  /** A cycle without a spare register is not touched by coalescing. */
  lemma CycleStays(cycle: set<Reg>, kind: bool, rp: Reg, live: set<Reg>, free: set<Reg>, sload: map<Reg, nat>,
                   reg: map<nat, Reg>, st: Start)
    requires Targets(live, sload, reg) && Targets(st.live, sload, st.reg) && live <= st.live
    requires IsCycle(cycle, st.live, sload, st.reg, kind) && !Spare(st, kind) && cycle <= live && cycle !! free
             && rp in free && rp in live
    requires forall q :: q in live && !Spare(st, IsGpr(q)) ==> reg[sload[q]] == st.reg[sload[q]]
    ensures cycle <= live - {rp} && cycle !! free + {reg[sload[rp]]}
  {
    var r := reg[sload[rp]];
    assert r in cycle ==> WantedIn(r, cycle, sload, st.reg);
  }

  /** If no live register is free, the live registers are exactly the allocated ones. */
  lemma AllAllocated(live: set<Reg>, free: set<Reg>, sload: map<Reg, nat>, reg: map<nat, Reg>)
    requires Targets(live, sload, reg) && free !! live
    requires forall x: Reg {:trigger WantedIn(x, live, sload, reg)} :: x !in free ==> WantedIn(x, live, sload, reg)
    ensures forall q :: q in live ==> WantedIn(q, live, sload, reg)
    ensures forall x: Reg :: x in live || x in free
  {
    var targets := set q | q in live :: reg[sload[q]];
    Image(live, sload, reg, targets);
    forall x | x in live ensures x in targets { assert WantedIn(x, live, sload, reg); }
    forall x: Reg | x !in free ensures x in targets { assert WantedIn(x, live, sload, reg); }
    SubsetSame(live, targets);
  }

  lemma KindAllocated(live: set<Reg>, free: set<Reg>, sload: map<Reg, nat>, reg: map<nat, Reg>, kind: bool,
                      work: set<Reg>)
    requires Targets(live, sload, reg) && work == set q | q in live && IsGpr(q) == kind
    requires forall x :: x in live && IsGpr(x) == kind ==> x !in free
    requires forall q :: q in live ==> IsGpr(reg[sload[q]]) == IsGpr(q)
    requires forall x: Reg {:trigger WantedIn(x, live, sload, reg)} :: x !in free ==> WantedIn(x, live, sload, reg)
    ensures forall q :: q in work ==> WantedIn(q, work, sload, reg)
    ensures forall x: Reg :: IsGpr(x) == kind ==> x in live || x in free
  {
    var others := set x: Reg | x in free || IsGpr(x) != kind;
    forall x: Reg | x !in others ensures WantedIn(x, work, sload, reg) {
      assert WantedIn(x, live, sload, reg);
      var p :| p in live && p in sload && sload[p] in reg && reg[sload[p]] == x;
      assert p in work;
    }
    assert Targets(work, sload, reg);
    AllAllocated(work, others, sload, reg);
    forall x: Reg | IsGpr(x) == kind ensures x in live || x in free { assert x in work || x in others; }
  }

  lemma {:induction false} Image(live: set<Reg>, sload: map<Reg, nat>, reg: map<nat, Reg>, targets: set<Reg>)
    requires Targets(live, sload, reg) && targets == set q | q in live :: reg[sload[q]]
    ensures |targets| == |live|
    decreases |live|
  {
    if live != {} {
      var q :| q in live;
      var live', targets' := live - {q}, targets - {reg[sload[q]]};
      assert targets' == set p | p in live' :: reg[sload[p]];
      Image(live', sload, reg, targets');
    }
  }

  lemma SubsetSame(a: set<Reg>, b: set<Reg>)
    requires a <= b && |a| == |b|
    ensures a == b
  {
    if x :| x in b && x !in a {
      assert a <= b - {x};
      SubsetSize(a, b - {x});
    }
  }

  lemma {:induction false} SubsetSize(a: set<Reg>, b: set<Reg>)
    requires a <= b
    ensures |a| <= |b|
    decreases |a|
  {
    if a != {} {
      var x :| x in a;
      SubsetSize(a - {x}, b - {x});
    }
  }

  /** The state at the start. */
  datatype Start = Start(free: set<Reg>, live: set<Reg>, allow: set<Reg>, reg: map<nat, Reg>, settled: set<Reg>)

  /** The code performs the parallel copy: from whatever the parent leaves, every value ends up in its target. */
  ghost predicate Moves(code: seq<Mov>, settled: set<Reg>, live: set<Reg>, sload: map<Reg, nat>, reg: map<nat, Reg>) {
    && Targets(live, sload, reg)
    && forall f: File :: Placed(f, Exec(code, f), settled, live, sload, reg)
  }

  /** Once what is left has been placed, the code finishes the work. */
  ghost predicate Finishes(code: seq<Mov>, settled: set<Reg>, live: set<Reg>, sload: map<Reg, nat>, reg: map<nat, Reg>,
                           settled0: set<Reg>, live0: set<Reg>, reg0: map<nat, Reg>)
    requires Targets(live, sload, reg) && Targets(live0, sload, reg0)
  {
    forall f0: File, f: File {:trigger Placed(f0, f, settled, live, sload, reg)} ::
      Placed(f0, f, settled, live, sload, reg) ==> Placed(f0, Exec(code, f), settled0, live0, sload, reg0)
  }

  lemma AtFirst(settled: set<Reg>, live: set<Reg>, sload: map<Reg, nat>, reg: map<nat, Reg>)
    requires Targets(live, sload, reg)
    ensures Finishes([], settled, live, sload, reg, settled, live, reg)
  {
  }

  lemma ExecLast(code: seq<Mov>, m: Mov, f: File)
    ensures Exec(code + [m], f) == Exec(code, Step(m, f))
  {
    assert (code + [m])[..|code + [m]| - 1] == code;
  }

  lemma CoalesceFinishes(code: seq<Mov>, settled: set<Reg>, live: set<Reg>, sload: map<Reg, nat>, reg: map<nat, Reg>,
                         settled0: set<Reg>, live0: set<Reg>, reg0: map<nat, Reg>, rp: Reg)
    requires Targets(live, sload, reg) && Targets(live0, sload, reg0)
    requires Finishes(code, settled, live, sload, reg, settled0, live0, reg0)
    requires rp in live && reg[sload[rp]] !in settled
    ensures Finishes(code + [Mov(reg[sload[rp]], rp)], settled + {rp}, live - {rp}, sload, reg, settled0, live0, reg0)
  {
    var m := Mov(reg[sload[rp]], rp);
    forall f0: File, f: File | Placed(f0, f, settled + {rp}, live - {rp}, sload, reg)
      ensures Placed(f0, Exec(code + [m], f), settled0, live0, sload, reg0)
    {
      ExecLast(code, m, f);
      forall q | q in live ensures Step(m, f)[reg[sload[q]]] == f0[q] {
        assert q != rp ==> q in live - {rp};
      }
      assert Placed(f0, Step(m, f), settled, live, sload, reg);
    }
  }

  lemma RenameFinishes(code: seq<Mov>, settled: set<Reg>, live: set<Reg>, sload: map<Reg, nat>, reg: map<nat, Reg>,
                       settled0: set<Reg>, live0: set<Reg>, reg0: map<nat, Reg>, q: Reg, up: Reg)
    requires Targets(live, sload, reg) && Targets(live0, sload, reg0)
    requires Finishes(code, settled, live, sload, reg, settled0, live0, reg0)
    requires q in live && reg[sload[q]] !in settled && forall p :: p in live ==> reg[sload[p]] != up
    ensures Targets(live, sload, reg[sload[q] := up])
    ensures Finishes(code + [Mov(reg[sload[q]], up)], settled, live, sload, reg[sload[q] := up], settled0, live0, reg0)
  {
    var m := Mov(reg[sload[q]], up);
    var reg' := reg[sload[q] := up];
    assert forall p :: p in live && p != q ==> sload[p] != sload[q];
    forall f0: File, f: File | Placed(f0, f, settled, live, sload, reg')
      ensures Placed(f0, Exec(code + [m], f), settled0, live0, sload, reg0)
    {
      ExecLast(code, m, f);
      assert f[reg'[sload[q]]] == f0[q];
      forall p | p in live ensures Step(m, f)[reg[sload[p]]] == f0[p] {
        assert f[reg'[sload[p]]] == f0[p];
      }
      assert Placed(f0, Step(m, f), settled, live, sload, reg);
    }
  }

  /** A spare register: free, allowed and not one of the parent's. */
  ghost predicate Spare(st: Start, kind: bool) {
    exists t :: t in st.free && t in st.allow && t !in st.live && IsGpr(t) == kind
  }

  /** Some parent registers of a kind are the targets of each other's values. */
  ghost predicate Cyclic(live: set<Reg>, sload: map<Reg, nat>, reg: map<nat, Reg>, kind: bool) {
    exists cycle :: IsCycle(cycle, live, sload, reg, kind)
  }

  ghost predicate IsCycle(cycle: set<Reg>, live: set<Reg>, sload: map<Reg, nat>, reg: map<nat, Reg>, kind: bool) {
    && cycle != {} && cycle <= live
    && (forall q :: q in cycle ==> IsGpr(q) == kind)
    && (forall q {:trigger WantedIn(q, cycle, sload, reg)} :: q in cycle ==> WantedIn(q, cycle, sload, reg))
  }
}
