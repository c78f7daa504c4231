/**
  The action list that the DynASM preprocessor produces, and what one put
  records when it walks it.
 */
module DasmActions {
  import opened Common
  import opened DasmCode
  import opened DasmLabels

  type ActionList = seq<byte>

  /** A variadic int argument. */
  type Int32 = x: int | -0x8000_0000 <= x < 0x8000_0000

  const IMM_S: byte := 234
  const IMM_B: byte := 235
  const IMM_W: byte := 236
  const IMM_D: byte := 237
  const SPACE: byte := 241
  const REL_LG: byte := 244
  const REL_PC: byte := 245
  const IMM_LG: byte := 246
  const IMM_PC: byte := 247
  const LABEL_LG: byte := 248
  const LABEL_PC: byte := 249
  const ALIGN: byte := 250
  const ESC: byte := 252
  const SECTION: byte := 254
  const STOP: byte := 255
  const FIRST_ACTION: byte := 233

  datatype Action =
    | Start
    | Literal(b: byte, escaped: bool)
    | ImmS | ImmB | ImmW | ImmD
    | Space(fill: byte)
    | RelLG(n: byte) | RelPC
    | AddrLG(n: byte) | AddrPC
    | LabelLG(n: byte) | LabelPC
    | Align(mask: byte)
    | Section(n: byte) | Stop
    | Unknown
  {
    predicate Terminal() { Section? || Stop? }
    predicate IsRel() { RelLG? || RelPC? }
    predicate IsRef() { IsRel() || AddrLG? || AddrPC? }
    predicate IsLabel() { LabelLG? || LabelPC? }
    predicate TakesArg() { ImmS? || ImmB? || ImmW? || ImmD? || Space? || RelPC? || AddrPC? || LabelPC? }

    /** Bytes in the action list. */
    function Length(): nat {
      match this
      case Literal(_, escaped) => if escaped then 2 else 1
      case Space(_) => 2
      case RelLG(_) => 2
      case AddrLG(_) => 2
      case LabelLG(_) => 2
      case Align(_) => 2
      case Section(_) => 2
      case _ => 1
    }

    /** Buffer positions a put uses for it. */
    function Slots(): nat {
      if IsRel() then 2 else if Literal? || Terminal() || Unknown? then 0 else 1
    }
  }

  function Decode(al: ActionList, p: nat): Action
    requires p < |al|
  {
    var a := al[p];
    if a < FIRST_ACTION then Literal(a, false)
    else if a == IMM_S then ImmS
    else if a == IMM_B then ImmB
    else if a == IMM_W then ImmW
    else if a == IMM_D then ImmD
    else if a == REL_PC then RelPC
    else if a == IMM_PC then AddrPC
    else if a == LABEL_PC then LabelPC
    else if a == STOP then Stop
    else if p + 1 == |al| then Unknown
    else if a == SPACE then Space(al[p+1])
    else if a == REL_LG then RelLG(al[p+1])
    else if a == IMM_LG then AddrLG(al[p+1])
    else if a == LABEL_LG then LabelLG(al[p+1])
    else if a == ALIGN then Align(al[p+1])
    else if a == ESC then Literal(al[p+1], true)
    else if a == SECTION then Section(al[p+1])
    else Unknown
  }

  /** How an action is written. */
  function Written(a: Action): seq<byte> {
    match a
    case Literal(b, escaped) => if escaped then [ESC, b] else [b]
    case ImmS => [IMM_S]
    case ImmB => [IMM_B]
    case ImmW => [IMM_W]
    case ImmD => [IMM_D]
    case RelPC => [REL_PC]
    case AddrPC => [IMM_PC]
    case LabelPC => [LABEL_PC]
    case Stop => [STOP]
    case Space(fill) => [SPACE, fill]
    case RelLG(n) => [REL_LG, n]
    case AddrLG(n) => [IMM_LG, n]
    case LabelLG(n) => [LABEL_LG, n]
    case Align(mask) => [ALIGN, mask]
    case Section(n) => [SECTION, n]
    case _ => []
  }

  /** A list begins with an action if and only if it begins with what is written for it. */
  lemma DecodeExactly(al: ActionList, p: nat, a: Action)
    requires p < |al| && !a.Unknown? && !a.Start? && (a.Literal? && !a.escaped ==> a.b < FIRST_ACTION)
    ensures Decode(al, p) == a <==> p + |Written(a)| <= |al| && al[p..p + |Written(a)|] == Written(a)
  {
    var w := Written(a);
    if p + |w| <= |al| {
      assert al[p..p + |w|][0] == al[p];
      if |w| == 2 {
        assert al[p..p + |w|][1] == al[p + 1];
        assert al[p..p + 2] == [al[p], al[p + 1]];
      } else {
        assert al[p..p + 1] == [al[p]];
      }
    }
  }

  /** One recorded action: where it stands in the action list, its argument, its first
      buffer position and the section offset pass 1 has reached before it. */
  datatype Item = Item(p: nat, a: Action, n: int, at: int, est: int) {
    /** Offset growth pass 1 assumes. */
    function Grows(): int {
      match a
      case Literal(_, _) => 1
      case ImmS => 1
      case ImmB => 1
      case ImmW => 2
      case ImmD => 4
      case Space(_) => n
      case RelLG(_) => 4
      case RelPC => 4
      case AddrLG(_) => 4
      case AddrPC => 4
      case Align(mask) => mask
      case _ => 0
    }

    /** A forward local reference is written as label number + 246. */
    predicate Forward() { (a.RelLG? || a.AddrLG?) && a.n > 246 }

    predicate KeyOk() { a.RelPC? || a.AddrPC? || a.LabelPC? ==> n >= 0 }

    function Label(): Key
      requires a.IsRef() || a.IsLabel()
      requires KeyOk()
    {
      match a
      case RelLG(l) => LG(if l > 246 then l - 246 else l)
      case AddrLG(l) => LG(if l > 246 then l - 246 else l)
      case LabelLG(l) => LG(l)
      case _ => PC(n)
    }

    ghost predicate HasEvent() { a.IsRef() || a.IsLabel() }

    ghost function LabelEvent(): Event
      requires HasEvent() && KeyOk()
    {
      if a.IsLabel() then Def(at, Label()) else Ref(at, Label(), Forward())
    }
  }

  ghost function EventOf(it: Item): seq<Event> {
    if it.HasEvent() && it.KeyOk() then [it.LabelEvent()] else []
  }

  /** The label events of some items, in the order they were recorded. */
  ghost function Events(items: seq<Item>): seq<Event> {
    if items == [] then [] else Events(items[..|items|-1]) + EventOf(items[|items|-1])
  }

  lemma EventsAppend(items: seq<Item>, it: Item)
    ensures Events(items + [it]) == Events(items) + EventOf(it)
  {
    assert (items + [it])[..|items|] == items;
  }

  lemma {:induction false} EventsCons(it: Item, items: seq<Item>)
    requires !it.HasEvent()
    ensures Events([it] + items) == Events(items)
  {
    if items == [] {
      EventsAppend([], it);
      assert [] + [it] == [it] + items;
    } else {
      var init, last := items[..|items|-1], items[|items|-1];
      EventsCons(it, init);
      EventsAppend([it] + init, last);
      assert [it] + items == [it] + init + [last];
    }
  }

  lemma {:induction false} EventsFirst(items: seq<Item>)
    requires items != []
    ensures Events(items) == EventOf(items[0]) + Events(items[1..])
  {
    hide EventOf;
    var init := items[..|items|-1];
    if |items| > 1 {
      EventsFirst(init);
      assert items[1..][..|items|-2] == init[1..];
    }
  }

  predicate LowMask(mask: int) {
    mask == 0 || mask == 1 || mask == 3 || mask == 7 || mask == 15 || mask == 31 || mask == 63 || mask == 127
    || mask == 255
  }

  /** The opcode a shrinkable branch needs is the last thing emitted before it. */
  predicate OpcodeEmitted(recent: seq<byte>, op: byte) {
    && (Saving(op) == 3 ==> |recent| >= 1 && recent[|recent|-1] == op)
    && (Saving(op) == 4 ==> |recent| >= 2 && recent[|recent|-1] == op && recent[|recent|-2] == OP_PREFIX)
  }

  /** What the preprocessor guarantees about the list a put starts at and about its arguments:
      known actions up to a terminator, opcodes directly before shrinkable branches,
      alignments of the form 2^n - 1 and space that is not negative. */
  predicate Listing(al: ActionList, p: nat, args: nat -> Int32, k: nat, recent: seq<byte>)
    decreases |al| - p
  {
    && p < |al|
    && var a := Decode(al, p);
       && !a.Unknown?
       && (a.IsRel() ==> p > 0 && OpcodeEmitted(recent, al[p-1]))
       && (a.Align? ==> LowMask(a.mask))
       && (a.Space? ==> args(k) >= 0)
       && (a.Terminal() ||
           Listing(al, p + a.Length(), args, if a.TakesArg() then k + 1 else k,
                   if a.Literal? then recent + [a.b] else []))
  }

  /** What a put records from p on, when nothing is out of range. */
  function Record(al: ActionList, p: nat, args: nat -> Int32, k: nat, recent: seq<byte>, at: int, est: int): seq<Item>
    requires Listing(al, p, args, k, recent)
    decreases |al| - p
  {
    var a := Decode(al, p);
    var it := Item(p, a, if a.TakesArg() then args(k) else 0, at, est);
    if a.Terminal() then [it] else
      [it] + Record(al, p + a.Length(), args, if a.TakesArg() then k + 1 else k,
                    if a.Literal? then recent + [a.b] else [], at + a.Slots(), est + it.Grows())
  }

  /** Bytes of the action list that some items take, and arguments they use up. */
  function ListLength(items: seq<Item>): nat {
    if items == [] then 0 else items[0].a.Length() + ListLength(items[1..])
  }

  function ArgsUsed(items: seq<Item>): nat {
    if items == [] then 0 else (if items[0].a.TakesArg() then 1 else 0) + ArgsUsed(items[1..])
  }

  /** The j-th item of a put is the action that stands in the list behind those of the earlier ones, with the
      argument behind theirs; only the last one ends the put. */
  lemma {:induction false} RecordMeans(al: ActionList, p: nat, args: nat -> Int32, k: nat, recent: seq<byte>, at: int,
                                       est: int, j: nat)
    requires Listing(al, p, args, k, recent) && j < |Record(al, p, args, k, recent, at, est)|
    ensures var r := Record(al, p, args, k, recent, at, est);
            && r[j].p == p + ListLength(r[..j]) < |al| && r[j].a == Decode(al, r[j].p)
            && r[j].n == (if r[j].a.TakesArg() then args(k + ArgsUsed(r[..j])) else 0)
            && (r[j].a.Terminal() <==> j == |r| - 1)
    decreases |al| - p
  {
    hide Decode;
    var r := Record(al, p, args, k, recent, at, est);
    var a := Decode(al, p);
    var it := Item(p, a, if a.TakesArg() then args(k) else 0, at, est);
    if a.Terminal() {
      assert r[..0] == [];
    } else {
      var k', recent' := if a.TakesArg() then k + 1 else k, if a.Literal? then recent + [a.b] else [];
      var rest := Record(al, p + a.Length(), args, k', recent', at + a.Slots(), est + it.Grows());
      assert r == [it] + rest;
      if j == 0 {
        assert r[..0] == [];
        assert |rest| > 0;
      } else {
        RecordMeans(al, p + a.Length(), args, k', recent', at + a.Slots(), est + it.Grows(), j - 1);
        assert r[..j][0] == it && r[..j][1..] == rest[..j - 1];
      }
    }
  }

  // ---------------------------------------------------------------- a section's log against its buffer

  /** y comes right after x in the log of a section. */
  ghost predicate Follows(al: ActionList, x: Item, y: Item) {
    && y.at == x.at + x.a.Slots()
    && y.est == x.est + x.Grows()
    && if x.a.Terminal() then y.a.Start?
       else && y.p == (if x.a.Start? then x.p else x.p + x.a.Length())
            && y.p < |al| && y.a == Decode(al, y.p)
  }

  ghost predicate ItemOk(al: ActionList, L: seq<Item>, k: nat)
    requires k < |L|
  {
    var it := L[k];
    && !it.a.Unknown?
    && it.KeyOk()
    && (it.a.Start? ==> it.p < |al|)
    && (it.a.Space? ==> it.n >= 0)
    && (it.a.Align? ==> LowMask(it.a.mask))
    && (it.a.IsRel() ==> 0 < it.p <= |al| && OpcodeBefore(L, k, al[it.p-1]))
  }

  ghost predicate OpcodeBefore(L: seq<Item>, k: nat, op: byte)
    requires k < |L|
  {
    && (Saving(op) == 3 ==> k >= 1 && L[k-1].a.Literal? && L[k-1].a.b == op)
    && (Saving(op) == 4 ==> k >= 2 && L[k-1].a.Literal? && L[k-1].a.b == op
                            && L[k-2].a.Literal? && L[k-2].a.b == OP_PREFIX)
  }

  /** The log of one section is a run of puts, laid out one after the other from `base`. */
  ghost predicate LogOk(al: ActionList, base: int, L: seq<Item>) {
    && (|L| > 0 ==> L[0].a.Start? && L[0].at == base && L[0].est == 0)
    && (forall k {:trigger ItemOk(al, L, k)} :: 0 <= k < |L| ==> ItemOk(al, L, k))
    && (forall k {:trigger Follows(al, L[k-1], L[k])} :: 0 < k < |L| ==> Follows(al, L[k-1], L[k]))
  }

  function EndAt(base: int, L: seq<Item>): int {
    if L == [] then base else L[|L|-1].at + L[|L|-1].a.Slots()
  }

  function EndEst(L: seq<Item>): int {
    if L == [] then 0 else L[|L|-1].est + L[|L|-1].Grows()
  }

  /** What pass 1 leaves in the cells of an item; `links` are the cells that label chains own. */
  ghost predicate CellOk(cells: map<int, int>, links: set<int>, it: Item) {
    match it.a
    case Start => it.at !in links && it.at in cells && cells[it.at] == it.p
    case ImmS => it.at !in links && it.at in cells && cells[it.at] == it.n
    case ImmB => it.at !in links && it.at in cells && cells[it.at] == it.n
    case ImmW => it.at !in links && it.at in cells && cells[it.at] == it.n
    case ImmD => it.at !in links && it.at in cells && cells[it.at] == it.n
    case Space(_) => it.at !in links && it.at in cells && cells[it.at] == it.n
    case RelLG(_) => it.at in links && it.at + 1 !in links && it.at + 1 in cells && cells[it.at+1] == it.est + 4
    case RelPC => it.at in links && it.at + 1 !in links && it.at + 1 in cells && cells[it.at+1] == it.est + 4
    case AddrLG(_) => it.at in links
    case AddrPC => it.at in links
    case LabelLG(_) => it.at !in links && it.at in cells && cells[it.at] == it.est
    case LabelPC => it.at !in links && it.at in cells && cells[it.at] == it.est
    case Align(mask) => it.at !in links && it.at in cells && cells[it.at] == it.est + mask
    case _ => true
  }

  /** Positions grow along a section's log. */
  lemma {:induction false} Ascending(al: ActionList, base: int, L: seq<Item>, i: nat, j: nat)
    requires LogOk(al, base, L) && i <= j < |L|
    ensures L[i].at <= L[j].at && L[i].est <= L[j].est
    ensures i < j ==> L[i].at + L[i].a.Slots() <= L[j].at && L[i].est + L[i].Grows() <= L[j].est
    ensures base <= L[i].at && 0 <= L[i].est
    decreases j
  {
    assert ItemOk(al, L, j);
    if i < j {
      Ascending(al, base, L, i, j - 1);
      assert Follows(al, L[j-1], L[j]);
      assert ItemOk(al, L, j - 1);
    } else if 0 < i {
      Ascending(al, base, L, 0, i - 1);
      Ascending(al, base, L, i - 1, i - 1);
      assert Follows(al, L[i-1], L[i]);
      assert ItemOk(al, L, i - 1);
    }
  }
}
