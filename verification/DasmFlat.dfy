/**
  All sections of the encoder joined into one program, the way passes 2 and 3
  walk them, and what the buffer cells mean for that program.
 */
module DasmFlat {
  import opened Common
  import opened DasmCode
  import opened DasmLabels
  import opened DasmActions
  import opened DasmStore

  function Flat(log: seq<seq<Item>>, n: nat): seq<Item>
    requires n <= |log|
  {
    if n == 0 then [] else Flat(log, n - 1) + log[n-1]
  }

  function First(log: seq<seq<Item>>, s: nat): nat
    requires s <= |log|
  {
    |Flat(log, s)|
  }

  /** Sum of the pass-1 sizes of the sections before s. */
  function SectionBase(ofs: seq<int>, s: nat): int
    requires s <= |ofs|
  {
    if s == 0 then 0 else SectionBase(ofs, s - 1) + ofs[s-1]
  }

  lemma {:induction false} FlatAt(log: seq<seq<Item>>, n: nat, s: nat, k: nat)
    requires s < n <= |log| && k < |log[s]|
    ensures First(log, s) + k < |Flat(log, n)| && Flat(log, n)[First(log, s) + k] == log[s][k]
  {
    if s < n - 1 { FlatAt(log, n - 1, s, k); }
  }

  /** Every item of the joined program comes from some section. */
  lemma {:induction false} FlatFrom(log: seq<seq<Item>>, n: nat, i: nat) returns (s: nat, k: nat)
    requires n <= |log| && i < |Flat(log, n)|
    ensures s < n && k < |log[s]| && i == First(log, s) + k && Flat(log, n)[i] == log[s][k]
  {
    if i < First(log, n - 1) {
      s, k := FlatFrom(log, n - 1, i);
    } else {
      s, k := n - 1, i - First(log, n - 1);
    }
  }

  lemma {:induction false} FirstMonotone(log: seq<seq<Item>>, s: nat, t: nat)
    requires s < t <= |log|
    ensures First(log, s) + |log[s]| <= First(log, t)
  {
    if s < t - 1 { FirstMonotone(log, s, t - 1); }
  }

  // ---------------------------------------------------------------- the program

  ghost predicate IsLabelAt(log: seq<seq<Item>>, s: nat, k: nat, v: int) {
    s < |log| && k < |log[s]| && log[s][k].a.IsLabel() && log[s][k].at == v
  }

  ghost predicate LabelHere(log: seq<seq<Item>>, v: int) {
    exists s: nat, k: nat :: IsLabelAt(log, s, k, v)
  }

  /** The link of a chain is another reference, or position 0, where the first put starts. */
  ghost predicate IsLinkAt(log: seq<seq<Item>>, s: nat, k: nat, v: int) {
    s < |log| && k < |log[s]| && (log[s][k].a.Start? || log[s][k].a.IsRef()) && log[s][k].at == v
  }

  ghost predicate LinkHere(log: seq<seq<Item>>, v: int) {
    exists s: nat, k: nat :: IsLinkAt(log, s, k, v)
  }

  /** The program index of the label whose cell is v. */
  ghost function HomeIndex(log: seq<seq<Item>>, v: int): nat {
    if LabelHere(log, v) then
      var s: nat, k: nat :| IsLabelAt(log, s, k, v);
      First(log, s) + k
    else 0
  }

  function GlobalAddress(globals: seq<int>, v: int): int {
    if 0 <= -v < |globals| then globals[-v] else 0
  }

  function Opcode(al: ActionList, it: Item): byte {
    if 0 < it.p <= |al| then al[it.p-1] else 0
  }

  function CellValue(cells: map<int, int>, x: int): int {
    if x in cells then cells[x] else 0
  }

  /** Sum of the pass-1 sizes of the sections before s, from the logs. */
  function LogBase(log: seq<seq<Item>>, s: int): int {
    if s <= 0 then 0 else LogBase(log, s - 1) + if s <= |log| then EndEst(log[s-1]) else 0
  }

  /** What pass 2 takes for the distance to a chain link that lies ahead. */
  function SeenAhead(log: seq<seq<Item>>, cells: map<int, int>, it: Item, v: int): Option<int> {
    if v > it.at
    then Some(CellValue(cells, v) + LogBase(log, v / BIAS) - LogBase(log, it.at / BIAS) - (it.est + 4))
    else None
  }

  /** A relative reference whose cell holds v. */
  ghost function RelCmd(al: ActionList, log: seq<seq<Item>>, cells: map<int, int>, globals: seq<int>, it: Item,
                        v: int): Cmd {
    if v < 0 then ExtBranch(Opcode(al, it), GlobalAddress(globals, v))
    else if LabelHere(log, v) then Branch(Opcode(al, it), HomeIndex(log, v))
    else Stray(Opcode(al, it), SeenAhead(log, cells, it, v), CellValue(cells, v))
  }

  /** An absolute one. */
  ghost function AddrCmd(log: seq<seq<Item>>, cells: map<int, int>, globals: seq<int>, v: int): Cmd {
    if v < 0 then ExtAddress(GlobalAddress(globals, v))
    else if LabelHere(log, v) then Address(HomeIndex(log, v))
    else StrayAddress(CellValue(cells, v))
  }

  /** The command an item stands for once its references are resolved. */
  ghost function ToCmd(al: ActionList, log: seq<seq<Item>>, cells: map<int, int>, globals: seq<int>, it: Item): Cmd {
    var v := CellValue(cells, it.at);
    match it.a
    case Literal(b, _) => Emit(b)
    case ImmS => Imm(1, it.n)
    case ImmB => Imm(1, it.n)
    case ImmW => Imm(2, it.n)
    case ImmD => Imm(4, it.n)
    case Space(fill) => Fill(if it.n >= 0 then it.n else 0, fill)
    case RelLG(_) => RelCmd(al, log, cells, globals, it, v)
    case RelPC => RelCmd(al, log, cells, globals, it, v)
    case AddrLG(_) => AddrCmd(log, cells, globals, v)
    case AddrPC => AddrCmd(log, cells, globals, v)
    case LabelLG(_) => Mark
    case LabelPC => Mark
    case Align(mask) => Pad(mask)
    case _ => Nop
  }

  ghost function Program(al: ActionList, log: seq<seq<Item>>, cells: map<int, int>, globals: seq<int>): (r: seq<Cmd>)
    ensures |r| == First(log, |log|)
    ensures forall i :: 0 <= i < |r| ==> r[i] == ToCmd(al, log, cells, globals, Flat(log, |log|)[i])
  {
    seq(First(log, |log|), i requires 0 <= i < First(log, |log|) => ToCmd(al, log, cells, globals, Flat(log, |log|)[i]))
  }

  /** A reference cell after the undefined globals have been marked: the position of a label, the link
      of a chain that still waits, or -idx. */
  ghost predicate RefResolved(log: seq<seq<Item>>, cells: map<int, int>, nglobals: nat, it: Item) {
    && it.at in cells
    && (it.a.RelPC? || it.a.AddrPC? ==> cells[it.at] >= 0)
    && (if cells[it.at] < 0 then 10 <= -cells[it.at] < nglobals
        else LabelHere(log, cells[it.at]) || (LinkHere(log, cells[it.at]) && CellValue(cells, cells[it.at]) >= 0))
  }

  /** What passes 2 and 3 start from. */
  ghost predicate Ready(al: ActionList, st: Store, links: set<int>, log: seq<seq<Item>>, nglobals: nat) {
    && StoreOk(al, st.pos, st.ofs, st.cells, links, log)
    && Complete(log) && Rooted(log)
    && (forall s, k {:trigger RefResolved(log, st.cells, nglobals, log[s][k])} ::
          0 <= s < |log| && 0 <= k < |log[s]| && log[s][k].a.IsRef()
          ==> RefResolved(log, st.cells, nglobals, log[s][k]))
  }

  lemma HomeIsLabel(log: seq<seq<Item>>, v: int) returns (s: nat, k: nat)
    requires LabelHere(log, v)
    ensures IsLabelAt(log, s, k, v) && HomeIndex(log, v) == First(log, s) + k
  {
    s, k :| IsLabelAt(log, s, k, v) && HomeIndex(log, v) == First(log, s) + k;
  }

  lemma ItemAt(al: ActionList, st: Store, links: set<int>, log: seq<seq<Item>>, ng: nat, globals: seq<int>, s: nat,
               k: nat)
    requires Ready(al, st, links, log, ng) && s < |log| && k < |log[s]|
    ensures var prog := Program(al, log, st.cells, globals);
            && First(log, s) + k < |prog|
            && prog[First(log, s) + k] == ToCmd(al, log, st.cells, globals, log[s][k])
    ensures ItemOk(al, log[s], k) && CellOk(st.cells, links, log[s][k])
  {
    FlatAt(log, |log|, s, k);
    assert SectionOk(al, s, st.pos[s], st.ofs[s], log[s]);
  }

  lemma ProgramWellFormed(al: ActionList, st: Store, links: set<int>, log: seq<seq<Item>>, globals: seq<int>)
    requires Ready(al, st, links, log, |globals|)
    ensures WellFormed(Program(al, log, st.cells, globals))
  {
    var prog := Program(al, log, st.cells, globals);
    forall i | 0 <= i < |prog| ensures WellFormedCmd(prog, i) {
      var s, k := FlatFrom(log, |log|, i);
      var it := log[s][k];
      ItemAt(al, st, links, log, |globals|, globals, s, k);
      if it.a.IsRef() { assert RefResolved(log, st.cells, |globals|, log[s][k]); }
      if it.a.IsRef() && LabelHere(log, st.cells[it.at]) {
        var s', k' := HomeIsLabel(log, st.cells[it.at]);
        ItemAt(al, st, links, log, |globals|, globals, s', k');
      }
      if it.a.IsRel() { OpcodeCommands(al, st, links, log, globals, s, k); }
    }
  }

  lemma LiteralAt(al: ActionList, st: Store, links: set<int>, log: seq<seq<Item>>, globals: seq<int>, s: nat, k: nat)
    requires Ready(al, st, links, log, |globals|) && s < |log| && k < |log[s]| && log[s][k].a.Literal?
    ensures First(log, s) + k < |Program(al, log, st.cells, globals)|
    ensures Program(al, log, st.cells, globals)[First(log, s) + k] == Emit(log[s][k].a.b)
  {
    ItemAt(al, st, links, log, |globals|, globals, s, k);
  }

  lemma OpcodeCommands(al: ActionList, st: Store, links: set<int>, log: seq<seq<Item>>, globals: seq<int>, s: nat,
                       k: nat)
    requires Ready(al, st, links, log, |globals|) && s < |log| && k < |log[s]| && log[s][k].a.IsRel()
    ensures OpcodePrecedes(Program(al, log, st.cells, globals), First(log, s) + k, Opcode(al, log[s][k]))
  {
    hide Ready;
    ItemAt(al, st, links, log, |globals|, globals, s, k);
    var op := Opcode(al, log[s][k]);
    if Saving(op) >= 3 { LiteralAt(al, st, links, log, globals, s, k - 1); }
    if Saving(op) == 4 { LiteralAt(al, st, links, log, globals, s, k - 2); }
  }

  // ---------------------------------------------------------------- offsets

  /** Pass-1 offset within its section of the k-th item, or of the section's end. */
  function EstAt(L: seq<Item>, k: nat): int {
    if k < |L| then L[k].est else EndEst(L)
  }

  lemma SectionEst(al: ActionList, st: Store, links: set<int>, log: seq<seq<Item>>, ng: nat, s: nat)
    requires Ready(al, st, links, log, ng) && s < |log|
    ensures |st.ofs| == |log| && st.ofs[s] == EndEst(log[s]) == EstAt(log[s], |log[s]|)
    ensures EstAt(log[s], 0) == 0
    ensures forall k :: 0 < k <= |log[s]| ==> EstAt(log[s], k) == log[s][k-1].est + log[s][k-1].Grows()
  {
    hide CellOk;
    assert SectionOk(al, s, st.pos[s], st.ofs[s], log[s]);
    forall k | 0 < k <= |log[s]| ensures EstAt(log[s], k) == log[s][k-1].est + log[s][k-1].Grows() {
      if k < |log[s]| { assert Follows(al, log[s][k-1], log[s][k]); }
    }
  }

  lemma CommandSize(al: ActionList, st: Store, links: set<int>, log: seq<seq<Item>>, globals: seq<int>, s: nat, k: nat)
    requires Ready(al, st, links, log, |globals|) && s < |log| && k < |log[s]|
    ensures First(log, s) + k < |Program(al, log, st.cells, globals)|
    ensures MaxSize(Program(al, log, st.cells, globals)[First(log, s) + k]) == log[s][k].Grows()
  {
    hide Ready;
    hide CellOk;
    ItemAt(al, st, links, log, |globals|, globals, s, k);
  }

  /** Pass 1's section offsets are the estimates of the joined program. */
  lemma {:induction false} EstMatches(al: ActionList, st: Store, links: set<int>, log: seq<seq<Item>>,
                                      globals: seq<int>,
                                      s: nat, k: nat)
    requires Ready(al, st, links, log, |globals|) && s < |log| && k <= |log[s]|
    ensures First(log, s) + k <= First(log, |log|)
    ensures Est(Program(al, log, st.cells, globals), First(log, s) + k) == SectionBase(st.ofs, s) + EstAt(log[s], k)
    decreases s, k
  {
    hide Ready;
    hide ToCmd;
    hide MaxSize;
    FirstMonotone(log, s, |log|);
    SectionEst(al, st, links, log, |globals|, s);
    if k > 0 {
      EstMatches(al, st, links, log, globals, s, k - 1);
      CommandSize(al, st, links, log, globals, s, k - 1);
    } else if s > 0 {
      EstMatches(al, st, links, log, globals, s - 1, |log[s-1]|);
      SectionEst(al, st, links, log, |globals|, s - 1);
    }
  }

  /** Positions grow along the joined program, and tell the section. */
  lemma PositionsAscend(al: ActionList, st: Store, links: set<int>, log: seq<seq<Item>>, s: nat, k: nat, s': nat,
                        k': nat)
    requires StoreOk(al, st.pos, st.ofs, st.cells, links, log)
    requires s < |log| && k < |log[s]| && s' < |log| && k' < |log[s']|
    requires First(log, s) + k < First(log, s') + k'
    ensures log[s][k].at + log[s][k].a.Slots() <= log[s'][k'].at
  {
    assert SectionOk(al, s, st.pos[s], st.ofs[s], log[s]);
    assert SectionOk(al, s', st.pos[s'], st.ofs[s'], log[s']);
    if s == s' {
      Ascending(al, s * BIAS, log[s], k, k');
    } else if s < s' {
      Ascending(al, s * BIAS, log[s], k, |log[s]| - 1);
      Ascending(al, s' * BIAS, log[s'], k', k');
    } else {
      FirstMonotone(log, s', s);
      assert false;
    }
  }

  /** Two items that use buffer positions do not start at the same one. */
  lemma SamePlace(al: ActionList, st: Store, links: set<int>, log: seq<seq<Item>>, s: nat, k: nat, s': nat, k': nat)
    requires StoreOk(al, st.pos, st.ofs, st.cells, links, log)
    requires s < |log| && k < |log[s]| && s' < |log| && k' < |log[s']|
    requires log[s][k].at == log[s'][k'].at && log[s][k].a.Slots() > 0 && log[s'][k'].a.Slots() > 0
    ensures s == s' && k == k'
  {
    hide StoreOk;
    if First(log, s) + k < First(log, s') + k' {
      PositionsAscend(al, st, links, log, s, k, s', k');
    } else if First(log, s') + k' < First(log, s) + k {
      PositionsAscend(al, st, links, log, s', k', s, k);
    } else {
      SameIndex(log, s, k, s', k');
    }
  }

  lemma HomeIs(al: ActionList, st: Store, links: set<int>, log: seq<seq<Item>>, s: nat, k: nat)
    requires StoreOk(al, st.pos, st.ofs, st.cells, links, log)
    requires s < |log| && k < |log[s]| && log[s][k].a.IsLabel()
    ensures log[s][k].at >= 0 && LabelHere(log, log[s][k].at) && HomeIndex(log, log[s][k].at) == First(log, s) + k
  {
    hide StoreOk;
    hide Flat;
    assert IsLabelAt(log, s, k, log[s][k].at);
    var h, j := HomeIsLabel(log, log[s][k].at);
    SamePlace(al, st, links, log, s, k, h, j);
    SectionOf(al, st, links, log, s, k);
  }

  lemma SectionOf(al: ActionList, st: Store, links: set<int>, log: seq<seq<Item>>, s: nat, k: nat)
    requires StoreOk(al, st.pos, st.ofs, st.cells, links, log) && s < |log| && k < |log[s]|
    ensures s * BIAS <= log[s][k].at < s * BIAS + BIAS && log[s][k].at / BIAS == s
  {
    hide LogOk;
    hide CellOk;
    assert SectionOk(al, s, st.pos[s], st.ofs[s], log[s]);
    hide StoreOk;
    Ascending(al, s * BIAS, log[s], k, |log[s]| - 1);
    InSection(s, log[s][k].at);
  }

  lemma InSection(s: nat, x: int)
    requires s * BIAS <= x < s * BIAS + BIAS
    ensures x / BIAS == s
  {
  }

  // ---------------------------------------------------------------- cells during pass 2

  /** What pass 2 leaves in the cells of item i. */
  ghost predicate LinkedCell(cells0: map<int, int>, cells: map<int, int>, prog: seq<Cmd>, i: nat, it: Item) {
    i < |prog| &&
    if it.a.IsLabel() then CellValue(cells, it.at) == Final(prog, i)
    else && CellValue(cells, it.at) == CellValue(cells0, it.at)
         && (it.a.IsRel() ==> CellValue(cells, it.at + 1) == ShrinkOf(prog, i))
  }

  ghost predicate SameCell(cells0: map<int, int>, cells: map<int, int>, it: Item) {
    && CellValue(cells, it.at) == CellValue(cells0, it.at)
    && (it.a.IsRel() ==> CellValue(cells, it.at + 1) == CellValue(cells0, it.at + 1))
  }

  ghost predicate CellAt(log: seq<seq<Item>>, cells0: map<int, int>, cells: map<int, int>, prog: seq<Cmd>, i: nat,
                         s: nat, k: nat)
    requires s < |log| && k < |log[s]|
  {
    var it := log[s][k];
    it.a.Slots() > 0 ==>
      if First(log, s) + k < i then LinkedCell(cells0, cells, prog, First(log, s) + k, it)
          else SameCell(cells0, cells, it)
  }

  /** Pass 2 has dealt with the first i items. */
  ghost predicate LinkInv(log: seq<seq<Item>>, cells0: map<int, int>, cells: map<int, int>, prog: seq<Cmd>, i: nat) {
    && cells.Keys == cells0.Keys
    && forall s, k {:trigger CellAt(log, cells0, cells, prog, i, s, k)} ::
         0 <= s < |log| && 0 <= k < |log[s]| ==> CellAt(log, cells0, cells, prog, i, s, k)
  }

  lemma {:induction false} SameIndex(log: seq<seq<Item>>, s: nat, k: nat, s': nat, k': nat)
    requires s < |log| && k < |log[s]| && s' < |log| && k' < |log[s']|
    requires First(log, s) + k == First(log, s') + k'
    ensures s == s' && k == k'
  {
    if s < s' { FirstMonotone(log, s, s'); }
    if s' < s { FirstMonotone(log, s', s); }
  }

  /** Dealing with one item changes its own cells only. */
  lemma LinkStep(al: ActionList, st: Store, links: set<int>, log: seq<seq<Item>>, ng: nat, prog: seq<Cmd>,
                 cells: map<int, int>, cells': map<int, int>, s: nat, k: nat)
    requires Ready(al, st, links, log, ng) && s < |log| && k < |log[s]|
    requires LinkInv(log, st.cells, cells, prog, First(log, s) + k)
    requires cells'.Keys == cells.Keys
    requires forall x :: x in cells && x !in SlotCells(log[s][k]) ==> cells'[x] == cells[x]
    requires log[s][k].a.Slots() > 0 ==> LinkedCell(st.cells, cells', prog, First(log, s) + k, log[s][k])
    ensures LinkInv(log, st.cells, cells', prog, First(log, s) + k + 1)
  {
    hide LinkedCell;
    hide Ready;
    hide SlotCells;
    var i := First(log, s) + k;
    var i' := i + 1;
    forall s', k' | 0 <= s' < |log| && 0 <= k' < |log[s']|
      ensures CellAt(log, st.cells, cells', prog, i', s', k')
    {
      var j := First(log, s') + k';
      assert CellAt(log, st.cells, cells, prog, i, s', k');
      if j == i {
        SameIndex(log, s, k, s', k');
      } else {
        OtherItemKeeps(al, st, links, log, ng, prog, cells, cells', s, k, s', k');
      }
    }
  }

  lemma OtherItemKeeps(al: ActionList, st: Store, links: set<int>, log: seq<seq<Item>>, ng: nat, prog: seq<Cmd>,
                       cells: map<int, int>, cells': map<int, int>, s: nat, k: nat, s': nat, k': nat)
    requires Ready(al, st, links, log, ng) && s < |log| && k < |log[s]|
    requires s' < |log| && k' < |log[s']| && First(log, s) + k != First(log, s') + k'
    requires CellAt(log, st.cells, cells, prog, First(log, s) + k, s', k')
    requires cells'.Keys == cells.Keys
    requires forall x :: x in cells && x !in SlotCells(log[s][k]) ==> cells'[x] == cells[x]
    ensures CellAt(log, st.cells, cells', prog, First(log, s) + k + 1, s', k')
  {
    hide StoreOk;
    hide Final;
    if First(log, s') + k' < First(log, s) + k {
      PositionsAscend(al, st, links, log, s', k', s, k);
    } else {
      PositionsAscend(al, st, links, log, s, k, s', k');
    }
    var it := log[s'][k'];
    if it.a.Slots() > 0 {
      assert CellValue(cells', it.at) == CellValue(cells, it.at);
      if it.a.IsRel() { assert CellValue(cells', it.at + 1) == CellValue(cells, it.at + 1); }
    }
  }

  /** The distance pass 2 computes from the cells is the one the choice of the short form is defined by. */
  lemma CellDistance(al: ActionList, st: Store, links: set<int>, log: seq<seq<Item>>, globals: seq<int>,
                     prog: seq<Cmd>, cells: map<int, int>, s: nat, k: nat)
    returns (s': nat)
    requires Ready(al, st, links, log, |globals|) && s < |log| && k < |log[s]| && log[s][k].a.IsRel()
    requires prog == Program(al, log, st.cells, globals)
    requires LinkInv(log, st.cells, cells, prog, First(log, s) + k)
    requires CellValue(st.cells, log[s][k].at) >= 0
    ensures var i, it := First(log, s) + k, log[s][k];
            var v := CellValue(st.cells, it.at);
            && i < |prog| && |st.ofs| == |log| && it.at in cells && it.at + 1 in cells && v in cells
               && cells[it.at] == v
            && prog[i].Relative() && prog[i].op == Opcode(al, it)
            && s' < |log| && v / BIAS == s' && (v > it.at ==> s <= s')
            && DistanceOk(prog, i, (if v > it.at then cells[v] + SectionBase(st.ofs, s') - SectionBase(st.ofs, s)
                                    else cells[v] - (Final(prog, i) - it.est)) - cells[it.at+1])
  {
    hide StoreOk;
    hide Final;
    hide Program;
    hide RelCmd;
    var i, it := First(log, s) + k, log[s][k];
    ItemAt(al, st, links, log, |globals|, globals, s, k);
    SectionEst(al, st, links, log, |globals|, s);
    assert RefResolved(log, st.cells, |globals|, it);
    var v := st.cells[it.at];
    var k';
    RelCommand(al, log, st.cells, globals, it, v);
    if LabelHere(log, v) {
      s', k' := HomeIsLabel(log, v);
      hide Ready;
      ItemAt(al, st, links, log, |globals|, globals, s', k');
      DistanceSides(al, st, links, log, globals, prog, cells, s, k, s', k');
    } else {
      s', k' :| IsLinkAt(log, s', k', v);
      hide Ready;
      StraySides(al, st, links, log, globals, prog, cells, s, k, s', k');
    }
  }

  /** The branch at i is made short just when the distance d allows it. */
  ghost predicate DistanceOk(prog: seq<Cmd>, i: nat, d: int) {
    && i < |prog| && prog[i].Relative()
    && (Short(prog, i) <==> Saving(prog[i].op) != 0 && -128 - Saving(prog[i].op) <= d <= 127)
  }

  lemma RelCommand(al: ActionList, log: seq<seq<Item>>, cells: map<int, int>, globals: seq<int>, it: Item, v: int)
    requires v >= 0
    ensures LabelHere(log, v) ==> RelCmd(al, log, cells, globals, it, v) == Branch(Opcode(al, it), HomeIndex(log, v))
    ensures !LabelHere(log, v) ==>
              RelCmd(al, log, cells, globals, it, v)
              == Stray(Opcode(al, it), SeenAhead(log, cells, it, v), CellValue(cells, v))
  {
  }

  lemma {:induction false} LogBaseIs(al: ActionList, st: Store, links: set<int>, log: seq<seq<Item>>, ng: nat, s: nat)
    requires Ready(al, st, links, log, ng) && s <= |log|
    ensures |st.ofs| == |log| && LogBase(log, s) == SectionBase(st.ofs, s)
  {
    hide CellOk;
    hide LogOk;
    if s > 0 {
      LogBaseIs(al, st, links, log, ng, s - 1);
      assert SectionOk(al, s - 1, st.pos[s-1], st.ofs[s-1], log[s-1]);
    }
  }

  /** What the cells hold at a reference and at a label when pass 2 has dealt with the first i items. */
  lemma RefCells(al: ActionList, st: Store, links: set<int>, log: seq<seq<Item>>, ng: nat,
                 prog: seq<Cmd>, cells: map<int, int>, i: nat, s: nat, k: nat)
    requires Ready(al, st, links, log, ng) && LinkInv(log, st.cells, cells, prog, i)
    requires s < |log| && k < |log[s]|
    ensures var it := log[s][k];
            && (it.a.IsRef() ==> it.at in cells && cells[it.at] == CellValue(st.cells, it.at))
            && (it.a.IsRel() && First(log, s) + k >= i ==> it.at + 1 in cells && cells[it.at+1] == it.est + 4)
            && (it.a.IsRel() && First(log, s) + k < i ==>
                  it.at + 1 in cells && First(log, s) + k < |prog|
                  && cells[it.at+1] == ShrinkOf(prog, First(log, s) + k))
            && (it.a.IsLabel() && First(log, s) + k >= i ==> it.at in cells && cells[it.at] == it.est)
            && (it.a.IsLabel() && First(log, s) + k < i ==>
                  it.at in cells && First(log, s) + k < |prog| && cells[it.at] == Final(prog, First(log, s) + k))
  {
    hide Final;
    hide Short;
    assert CellAt(log, st.cells, cells, prog, i, s, k);
    assert CellOk(st.cells, links, log[s][k]);
    if log[s][k].a.IsRef() { assert RefResolved(log, st.cells, ng, log[s][k]); }
  }

  lemma DistanceSides(al: ActionList, st: Store, links: set<int>, log: seq<seq<Item>>, globals: seq<int>,
                      prog: seq<Cmd>, cells: map<int, int>, s: nat, k: nat, s': nat, k': nat)
    requires Ready(al, st, links, log, |globals|) && s < |log| && k < |log[s]| && log[s][k].a.IsRel()
    requires prog == Program(al, log, st.cells, globals)
    requires LinkInv(log, st.cells, cells, prog, First(log, s) + k)
    requires s' < |log| && k' < |log[s']| && log[s'][k'].a.IsLabel() && |st.ofs| == |log|
    ensures var i, t := First(log, s) + k, First(log, s') + k';
            var it, v := log[s][k], log[s'][k'].at;
            && i < |prog| && t < |prog| && t != i && it.at in cells && it.at + 1 in cells && v in cells
            && cells[it.at] == CellValue(st.cells, it.at)
            && v / BIAS == s'
            && (v > it.at ==>
                  && s <= s'
                  && SeenDistance(prog, i, t)
                     == cells[v] + SectionBase(st.ofs, s') - SectionBase(st.ofs, s) - cells[it.at+1])
            && (v <= it.at ==> SeenDistance(prog, i, t) == cells[v] - (Final(prog, i) - it.est) - cells[it.at+1])
  {
    hide Final;
    hide Program;
    hide StoreOk;
    hide Complete;
    hide LinkInv;
    hide CellOk;
    hide ToCmd;
    var i, t := First(log, s) + k, First(log, s') + k';
    assert StoreOk(al, st.pos, st.ofs, st.cells, links, log);
    RefCells(al, st, links, log, |globals|, prog, cells, i, s, k);
    RefCells(al, st, links, log, |globals|, prog, cells, i, s', k');
    EstMatches(al, st, links, log, globals, s, k);
    EstMatches(al, st, links, log, globals, s', k');
    SectionOf(al, st, links, log, s, k);
    SectionOf(al, st, links, log, s', k');
    ItemAt(al, st, links, log, |globals|, globals, s, k);
    ItemAt(al, st, links, log, |globals|, globals, s', k');
    if t == i { SameIndex(log, s, k, s', k'); }
    if t > i {
      PositionsAscend(al, st, links, log, s, k, s', k');
    } else {
      PositionsAscend(al, st, links, log, s', k', s, k);
    }
  }

  /** The same for a chain link, which pass 2 does not change. */
  lemma StraySides(al: ActionList, st: Store, links: set<int>, log: seq<seq<Item>>, globals: seq<int>,
                   prog: seq<Cmd>, cells: map<int, int>, s: nat, k: nat, s': nat, k': nat)
    requires Ready(al, st, links, log, |globals|) && s < |log| && k < |log[s]| && log[s][k].a.IsRel()
    requires prog == Program(al, log, st.cells, globals)
    requires LinkInv(log, st.cells, cells, prog, First(log, s) + k)
    requires s' < |log| && k' < |log[s']| && IsLinkAt(log, s', k', log[s'][k'].at) && |st.ofs| == |log|
    ensures var i, it, v := First(log, s) + k, log[s][k], log[s'][k'].at;
            && i < |prog| && it.at in cells && it.at + 1 in cells && v in cells
            && cells[it.at] == CellValue(st.cells, it.at) && cells[v] == CellValue(st.cells, v)
            && v / BIAS == s' && (v > it.at ==> s <= s')
            && StrayDistance(prog, i, SeenAhead(log, st.cells, it, v), CellValue(st.cells, v))
               == (if v > it.at then cells[v] + SectionBase(st.ofs, s') - SectionBase(st.ofs, s)
                   else cells[v] - (Final(prog, i) - it.est)) - cells[it.at+1]
  {
    hide Final;
    hide Program;
    hide StoreOk;
    hide Complete;
    hide LinkInv;
    hide CellOk;
    hide ToCmd;
    var i := First(log, s) + k;
    assert StoreOk(al, st.pos, st.ofs, st.cells, links, log);
    RefCells(al, st, links, log, |globals|, prog, cells, i, s, k);
    LinkCell(al, st, links, log, |globals|, prog, cells, i, s', k');
    LogBaseIs(al, st, links, log, |globals|, s);
    LogBaseIs(al, st, links, log, |globals|, s');
    SectionOf(al, st, links, log, s, k);
    SectionOf(al, st, links, log, s', k');
    ItemAt(al, st, links, log, |globals|, globals, s, k);
  }

  lemma LinkCell(al: ActionList, st: Store, links: set<int>, log: seq<seq<Item>>, ng: nat,
                 prog: seq<Cmd>, cells: map<int, int>, i: nat, s: nat, k: nat)
    requires Ready(al, st, links, log, ng) && LinkInv(log, st.cells, cells, prog, i)
    requires s < |log| && k < |log[s]| && IsLinkAt(log, s, k, log[s][k].at)
    ensures log[s][k].at in cells && cells[log[s][k].at] == CellValue(st.cells, log[s][k].at)
  {
    hide Final;
    hide Short;
    if log[s][k].a.Start? {
      StartCell(al, st, links, log, ng, prog, cells, i, s, k);
      assert CellOk(st.cells, links, log[s][k]);
    } else {
      RefCells(al, st, links, log, ng, prog, cells, i, s, k);
    }
  }

  // ---------------------------------------------------------------- from labels to references

  /** A waiting reference is linked to another one that waits. */
  lemma LinkBehind(log: seq<seq<Item>>, links: set<int>, hist: seq<Event>, cells: map<int, int>, t: nat)
    requires Matched(log, links, hist) && PositionsPositive(hist) && t < |hist| && hist[t].Ref?
    requires forall u :: 0 <= u < |hist| && hist[u].Ref? ==> FinalRef(cells, hist, u)
    requires Local(hist[t].key) && Resolve(hist, t).None? && ChainLink(hist, t) > 0
    ensures LinkHere(log, ChainLink(hist, t)) && CellValue(cells, ChainLink(hist, t)) >= 0
  {
    hide Resolve;
    hide SlotValue;
    var u := EarlierWaits(hist, t);
    assert hist[u] in hist;
    var s: nat, k: nat :| EventItem(log, s, k, hist[u]);
    assert IsLinkAt(log, s, k, ChainLink(hist, t));
    assert FinalRef(cells, hist, u);
  }

  /** The reference that has waited longest is linked to the start of the first put. */
  lemma LinkFirst(al: ActionList, st: Store, links: set<int>, log: seq<seq<Item>>, hist: seq<Event>, t: nat)
    requires StoreOk(al, st.pos, st.ofs, st.cells, links, log) && Rooted(log)
    requires Matched(log, links, hist) && t < |hist| && hist[t].Ref?
    ensures LinkHere(log, 0) && CellValue(st.cells, 0) >= 0
  {
    hide StoreOk;
    assert hist[t] in hist;
    var s: nat, k: nat :| EventItem(log, s, k, hist[t]);
    RootCell(al, st, links, log);
    assert IsLinkAt(log, 0, 0, 0);
  }

  /** A chain link is not the place of a label. */
  lemma LinkIsNoLabel(al: ActionList, st: Store, links: set<int>, log: seq<seq<Item>>, v: int)
    requires StoreOk(al, st.pos, st.ofs, st.cells, links, log) && LinkHere(log, v)
    ensures !LabelHere(log, v)
  {
    hide StoreOk;
    if LabelHere(log, v) {
      var s: nat, k: nat :| IsLinkAt(log, s, k, v);
      var s': nat, k': nat :| IsLabelAt(log, s', k', v);
      SamePlace(al, st, links, log, s, k, s', k');
    }
  }

  /** Position 0 holds the place of the first put's actions. */
  lemma RootCell(al: ActionList, st: Store, links: set<int>, log: seq<seq<Item>>)
    requires StoreOk(al, st.pos, st.ofs, st.cells, links, log) && |log| > 0 && log[0] != []
    ensures log[0][0].a.Start? && log[0][0].at == 0 && CellValue(st.cells, 0) == log[0][0].p
  {
    assert SectionOk(al, 0, st.pos[0], st.ofs[0], log[0]);
    assert CellOk(st.cells, links, log[0][0]);
  }

  /** After the undefined globals have been marked, every reference item is resolved or linked. */
  lemma RefItemResolved(al: ActionList, st: Store, tr: Trail, cells: map<int, int>, s: nat, k: nat)
    requires Inv(al, st, tr) && Rooted(tr.log) && s < |tr.log| && k < |tr.log[s]| && tr.log[s][k].a.IsRef()
    requires StoreOk(al, st.pos, st.ofs, cells, tr.links, tr.log)
    requires forall t :: 0 <= t < |tr.hist| && tr.hist[t].Ref? ==> FinalRef(cells, tr.hist, t)
    requires forall key :: key in tr.chains ==> Known(st.lg, st.pc, key)
    requires forall t :: 0 <= t < |tr.hist| && tr.hist[t].Ref? ==> tr.hist[t].key in tr.chains
    ensures RefResolved(tr.log, cells, |st.lg|, tr.log[s][k])
  {
    assert PositionsPositive(tr.hist);
    hide StoreOk;
    hide LabelsOk;
    hide SlotValue;
    hide Resolve;
    var it := tr.log[s][k];
    assert it.LabelEvent() in tr.hist;
    var t :| 0 <= t < |tr.hist| && tr.hist[t] == it.LabelEvent();
    assert FinalRef(cells, tr.hist, t);
    if Resolve(tr.hist, t).Some? {
      ResolveIsDef(tr.hist, t);
      var e := Def(Resolve(tr.hist, t).value, tr.hist[t].key);
      var s': nat, k': nat :| EventItem(tr.log, s', k', e);
      assert IsLabelAt(tr.log, s', k', cells[it.at]);
      SectionOf(al, st, tr.links, tr.log, s', k');
    } else if tr.hist[t].key.i < 10 {
      hide Matched;
      if ChainLink(tr.hist, t) > 0 {
        LinkBehind(tr.log, tr.links, tr.hist, cells, t);
      } else {
        LinkFirst(al, st.(cells := cells), tr.links, tr.log, tr.hist, t);
      }
    }
  }

  lemma StoreMarked(al: ActionList, st: Store, tr: Trail, cells: map<int, int>)
    requires Inv(al, st, tr) && Marked(st.cells, cells, tr.chains, |st.lg|)
    ensures StoreOk(al, st.pos, st.ofs, cells, tr.links, tr.log)
  {
    forall x | x in cells && x !in tr.links ensures cells[x] == st.cells[x] {
      forall i | 10 <= i < |st.lg| && InChain(tr.chains, i, x) ensures false {
        ChainsAreLinks(al, st, tr, LG(i));
      }
      assert Unmarked(tr.chains, |st.lg|, x);
    }
    hide LabelsOk;
    hide Marked;
    hide Matched;
    forall s | 0 <= s < |tr.log| ensures SectionOk(al, s, st.pos[s], st.ofs[s], tr.log[s]) {
    }
    forall s, k | 0 <= s < |tr.log| && 0 <= k < |tr.log[s]| ensures CellOk(cells, tr.links, tr.log[s][k]) {
      assert CellOk(st.cells, tr.links, tr.log[s][k]);
      CellKeeps(st.cells, tr.links, cells, tr.links, tr.log[s][k]);
    }
  }

  lemma ReadyToLink(al: ActionList, st: Store, tr: Trail, cells: map<int, int>)
    requires Inv(al, st, tr) && Complete(tr.log) && Rooted(tr.log) && Marked(st.cells, cells, tr.chains, |st.lg|)
    requires forall i :: 0 <= i < |st.pc| ==> st.pc[i] <= 0
    ensures forall t :: 0 <= t < |tr.hist| && tr.hist[t].Ref? ==> FinalRef(cells, tr.hist, t)
    ensures Ready(al, st.(cells := cells), tr.links, tr.log, |st.lg|)
  {
    forall t | 0 <= t < |tr.hist| && tr.hist[t].Ref?
      ensures FinalRef(cells, tr.hist, t) && tr.hist[t].key in tr.chains
    {
      AllRefsFinal(st.lg, st.pc, st.cells, cells, tr.chains, tr.hist, t);
      assert RefOk(st.cells, tr.chains, tr.hist, t);
    }
    assert forall key :: key in tr.chains ==> Known(st.lg, st.pc, key);
    StoreMarked(al, st, tr, cells);
    hide LabelsOk;
    hide StoreOk;
    hide Matched;
    hide FinalRef;
    forall s, k | 0 <= s < |tr.log| && 0 <= k < |tr.log[s]| && tr.log[s][k].a.IsRef()
      ensures RefResolved(tr.log, cells, |st.lg|, tr.log[s][k])
    {
      RefItemResolved(al, st, tr, cells, s, k);
    }
  }

  // ---------------------------------------------------------------- walking a section

  /** How a walk that follows the action list moves along a section's log. */
  lemma WalkStep(al: ActionList, st: Store, links: set<int>, log: seq<seq<Item>>, ng: nat, s: nat, k: nat)
    requires Ready(al, st, links, log, ng) && s < |log| && k < |log[s]|
    ensures var L, it := log[s], log[s][k];
            && ItemOk(al, L, k) && CellOk(st.cells, links, it)
            && (k == 0 ==> it.a.Start?)
            && (!it.a.Start? ==> it.p < |al| && it.a == Decode(al, it.p))
            && (it.a.Terminal() && k + 1 < |L| ==> L[k+1].a.Start?)
            && (!it.a.Terminal() ==> k + 1 < |L| && L[k+1].p == (if it.a.Start? then it.p else it.p + it.a.Length())
                                     && !L[k+1].a.Start?)
            && |st.pos| == |log| && it.at + it.a.Slots() == (if k + 1 < |L| then L[k+1].at else st.pos[s])
            && EstAt(L, k + 1) == it.est + it.Grows()
  {
    hide CellOk;
    assert SectionOk(al, s, st.pos[s], st.ofs[s], log[s]);
    assert CellOk(st.cells, links, log[s][k]);
    assert ItemOk(al, log[s], k);
    if k > 0 { assert Follows(al, log[s][k-1], log[s][k]); assert ItemOk(al, log[s], k - 1); }
    var j := k + 1;
    if j < |log[s]| { assert Follows(al, log[s][j-1], log[s][j]); }
  }

  /** Items that pass 2 neither shrinks nor aligns keep their pass-1 size. */
  lemma FixedSize(al: ActionList, st: Store, links: set<int>, log: seq<seq<Item>>, globals: seq<int>, prog: seq<Cmd>,
                  s: nat, k: nat)
    requires Ready(al, st, links, log, |globals|) && s < |log| && k < |log[s]|
    requires prog == Program(al, log, st.cells, globals)
    requires !log[s][k].a.IsRel() && !log[s][k].a.Align?
    ensures First(log, s) + k < |prog|
    ensures Final(prog, First(log, s) + k + 1) == Final(prog, First(log, s) + k) + log[s][k].Grows()
  {
    hide Ready;
    hide CellOk;
    hide Program;
    ItemAt(al, st, links, log, |globals|, globals, s, k);
  }

  lemma AlignCell(al: ActionList, st: Store, links: set<int>, log: seq<seq<Item>>, globals: seq<int>, prog: seq<Cmd>,
                  cells: map<int, int>, i: nat, s: nat, k: nat)
    requires Ready(al, st, links, log, |globals|) && s < |log| && k < |log[s]|
    requires prog == Program(al, log, st.cells, globals)
    requires LinkInv(log, st.cells, cells, prog, i) && i == First(log, s) + k && log[s][k].a.Align?
    ensures i < |prog| && prog[i] == Pad(log[s][k].a.mask)
    ensures log[s][k].at in cells && cells[log[s][k].at] == log[s][k].est + log[s][k].a.mask
  {
    hide Program;
    hide Final;
    hide Short;
    ItemAt(al, st, links, log, |globals|, globals, s, k);
    assert CellAt(log, st.cells, cells, prog, i, s, k);
  }

  /** Where a section begins and ends, and that a put starts before the end. */
  lemma SectionBounds(al: ActionList, st: Store, links: set<int>, log: seq<seq<Item>>, ng: nat, s: nat)
    requires Ready(al, st, links, log, ng) && s < |log|
    ensures |st.pos| == |st.ofs| == |log|
    ensures s * BIAS == if log[s] == [] then st.pos[s] else log[s][0].at
    ensures log[s] != [] ==> log[s][0].a.Start?
    ensures EstAt(log[s], 0) == 0 && EstAt(log[s], |log[s]|) == st.ofs[s]
    ensures forall k :: 0 <= k < |log[s]| && log[s][k].a.Start? ==> log[s][k].at < st.pos[s]
    ensures First(log, s + 1) == First(log, s) + |log[s]| <= First(log, |log|)
  {
    hide CellOk;
    assert SectionOk(al, s, st.pos[s], st.ofs[s], log[s]);
    FirstMonotone(log, s, |log|);
    forall k | 0 <= k < |log[s]| && log[s][k].a.Start? ensures log[s][k].at < st.pos[s] {
      Ascending(al, s * BIAS, log[s], k, |log[s]| - 1);
    }
  }

  lemma StartCell(al: ActionList, st: Store, links: set<int>, log: seq<seq<Item>>, ng: nat, prog: seq<Cmd>,
                  cells: map<int, int>, i: nat, s: nat, k: nat)
    requires Ready(al, st, links, log, ng) && s < |log| && k < |log[s]| && log[s][k].a.Start?
    requires LinkInv(log, st.cells, cells, prog, i)
    ensures log[s][k].at in cells && cells[log[s][k].at] == log[s][k].p
  {
    hide Final;
    hide Short;
    assert CellOk(st.cells, links, log[s][k]);
    assert CellAt(log, st.cells, cells, prog, i, s, k);
  }

  lemma LinkStarts(log: seq<seq<Item>>, cells: map<int, int>, prog: seq<Cmd>)
    ensures LinkInv(log, cells, cells, prog, 0)
  {
    forall s, k | 0 <= s < |log| && 0 <= k < |log[s]| ensures CellAt(log, cells, cells, prog, 0, s, k) {
    }
  }

  /** Arguments stay in their cells until pass 3. */
  lemma ArgumentCell(al: ActionList, st: Store, links: set<int>, log: seq<seq<Item>>, ng: nat, prog: seq<Cmd>,
                     cells: map<int, int>, i: nat, s: nat, k: nat)
    requires Ready(al, st, links, log, ng) && s < |log| && k < |log[s]|
    requires LinkInv(log, st.cells, cells, prog, i)
    requires var a := log[s][k].a; a.ImmS? || a.ImmB? || a.ImmW? || a.ImmD? || a.Space?
    ensures log[s][k].at in cells && cells[log[s][k].at] == log[s][k].n
    ensures log[s][k].a.Space? ==> log[s][k].n >= 0
  {
    hide Final;
    hide Short;
    hide Flat;
    assert CellOk(st.cells, links, log[s][k]);
    assert CellAt(log, st.cells, cells, prog, i, s, k);
    assert SectionOk(al, s, st.pos[s], st.ofs[s], log[s]);
    assert ItemOk(al, log[s], k);
  }
}
