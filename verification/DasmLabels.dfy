/**
  Labels of the DynASM encoder.  A label slot is 0 (unused), -pos (defined at
  pos) or the head of a chain of unresolved references that is threaded through
  the very buffer cells the references will later be read from.

  The specification is a history of references and definitions in the order
  the puts record them, and `Resolve`, which says for each reference which
  definition it means.
 */
module DasmLabels {
  import opened Common

  datatype Key = LG(i: nat) | PC(i: nat)

  /** `fwd` marks a reference to the next definition of a local label. */
  datatype Event = Ref(at: int, key: Key, fwd: bool) | Def(at: int, key: Key) | Reset

  /** The local labels that a step check forgets. */
  predicate Local(key: Key) {
    key.LG? && 1 <= key.i <= 9
  }

  /** Label 0 and the local labels cannot be referred to before they are defined, except forward. */
  predicate Numbered(key: Key) {
    key.LG? && key.i < 10
  }

  /** The most recent definition before time n; a step check hides older local ones. */
  function LatestDef(hist: seq<Event>, n: nat, key: Key): Option<int>
    requires n <= |hist|
  {
    if n == 0 then None
    else if hist[n-1].Def? && hist[n-1].key == key then Some(hist[n-1].at)
    else if hist[n-1].Reset? && Local(key) then None
    else LatestDef(hist, n - 1, key)
  }

  /** The first definition from time n on. */
  function FirstDef(hist: seq<Event>, n: nat, key: Key): Option<int>
    requires n <= |hist|
    decreases |hist| - n
  {
    if n == |hist| then None
    else if hist[n].Def? && hist[n].key == key then Some(hist[n].at)
    else FirstDef(hist, n + 1, key)
  }

  /** What the reference recorded at time t stands for: a forward local reference the next
      definition, any other one the most recent definition or, failing that, the next one. */
  function Resolve(hist: seq<Event>, t: nat): Option<int>
    requires t < |hist| && hist[t].Ref?
  {
    var key := hist[t].key;
    var back := LatestDef(hist, t, key);
    if !hist[t].fwd && back.Some? then back else FirstDef(hist, t + 1, key)
  }

  lemma {:induction false} FirstDefExtends(hist: seq<Event>, e: Event, n: nat, key: Key)
    requires n <= |hist|
    ensures FirstDef(hist + [e], n, key) ==
            if FirstDef(hist, n, key).Some? then FirstDef(hist, n, key)
            else if e.Def? && e.key == key then Some(e.at) else None
    decreases |hist| - n
  {
    if n < |hist| {
      FirstDefExtends(hist, e, n + 1, key);
    } else {
      assert FirstDef(hist + [e], n + 1, key) == None;
    }
  }

  lemma {:induction false} LatestDefExtends(hist: seq<Event>, e: Event, n: nat, key: Key)
    requires n <= |hist|
    ensures LatestDef(hist + [e], n, key) == LatestDef(hist, n, key)
  {
    if n > 0 {
      LatestDefExtends(hist, e, n - 1, key);
    }
  }

  lemma ResolveExtends(hist: seq<Event>, e: Event, t: nat)
    requires t < |hist| && hist[t].Ref?
    ensures (hist + [e])[t] == hist[t]
    ensures Resolve(hist + [e], t) ==
            if Resolve(hist, t).Some? then Resolve(hist, t)
            else if e.Def? && e.key == hist[t].key then Some(e.at) else None
    ensures ChainLink(hist + [e], t) == ChainLink(hist, t)
  {
    FirstDefExtends(hist, e, t + 1, hist[t].key);
    LatestDefExtends(hist, e, t, hist[t].key);
    SlotValueExtends(hist, e, t, hist[t].key);
  }

  /** A resolved reference stands for a definition of its own label. */
  lemma {:induction false} LatestIsDef(hist: seq<Event>, n: nat, key: Key)
    requires n <= |hist| && LatestDef(hist, n, key).Some?
    ensures Def(LatestDef(hist, n, key).value, key) in hist
  {
    if !(hist[n-1].Def? && hist[n-1].key == key) {
      LatestIsDef(hist, n - 1, key);
    }
  }

  lemma {:induction false} FirstIsDef(hist: seq<Event>, n: nat, key: Key)
    requires n <= |hist| && FirstDef(hist, n, key).Some?
    ensures Def(FirstDef(hist, n, key).value, key) in hist
    decreases |hist| - n
  {
    if !(hist[n].Def? && hist[n].key == key) {
      FirstIsDef(hist, n + 1, key);
    }
  }

  lemma ResolveIsDef(hist: seq<Event>, t: nat)
    requires t < |hist| && hist[t].Ref? && Resolve(hist, t).Some?
    ensures Def(Resolve(hist, t).value, hist[t].key) in hist
  {
    if !hist[t].fwd && LatestDef(hist, t, hist[t].key).Some? {
      LatestIsDef(hist, t, hist[t].key);
    } else {
      FirstIsDef(hist, t + 1, hist[t].key);
    }
  }

  /** What a label's slot holds after the first n events: the negated position of a definition that
      backward references find, the newest reference that waits for a definition, or 0. */
  function SlotValue(hist: seq<Event>, n: nat, key: Key): int
    requires n <= |hist|
  {
    if n == 0 then 0 else
      var v := SlotValue(hist, n - 1, key);
      match hist[n-1]
      case Def(at, k) => if k == key then -at else v
      case Ref(at, k, fwd) => if k == key && (fwd || (v >= 0 && !Numbered(key))) then at else v
      case Reset => if Local(key) then 0 else v
  }

  /** What a waiting reference's cell holds: the reference that waited before it, or 0. */
  function ChainLink(hist: seq<Event>, t: nat): int
    requires t < |hist| && hist[t].Ref?
  {
    var v := SlotValue(hist, t, hist[t].key);
    if v < 0 then 0 else v
  }

  lemma {:induction false} SlotValueExtends(hist: seq<Event>, e: Event, n: nat, key: Key)
    requires n <= |hist|
    ensures SlotValue(hist + [e], n, key) == SlotValue(hist, n, key)
  {
    if n > 0 {
      SlotValueExtends(hist, e, n - 1, key);
    }
  }

  /** A step check forgets a local label; a forward reference to it starts a new chain. */
  predicate Hides(e: Event, key: Key) {
    (e.Reset? && Local(key)) || (e.Ref? && e.fwd && e.key == key)
  }

  /** A definition of the label that nothing among the first n events has hidden since. */
  ghost predicate Shows(hist: seq<Event>, n: nat, key: Key, u: nat) {
    && u < n <= |hist| && hist[u].Def? && hist[u].key == key
    && forall w :: u < w < n ==> !Hides(hist[w], key)
  }

  /** A backward reference finds a definition: there is one since the last step check, and no
      forward reference to the label has been recorded since. */
  ghost predicate Visible(hist: seq<Event>, key: Key) {
    exists u: nat :: Shows(hist, |hist|, key, u)
  }

  predicate PositionsPositive(hist: seq<Event>) {
    forall t :: 0 <= t < |hist| && !hist[t].Reset? ==> hist[t].at > 0
  }

  /** A slot is negative just when a definition is visible. */
  lemma {:induction false} SlotShows(hist: seq<Event>, n: nat, key: Key)
    requires n <= |hist| && PositionsPositive(hist)
    ensures SlotValue(hist, n, key) < 0 <==> exists u: nat :: Shows(hist, n, key, u)
  {
    if n > 0 {
      var m := n - 1;
      var e := hist[m];
      SlotShows(hist, m, key);
      if e.Def? && e.key == key {
        assert Shows(hist, n, key, m);
      } else if Hides(e, key) {
        assert forall u: nat :: !Shows(hist, n, key, u);
      } else {
        assert forall u: nat :: Shows(hist, n, key, u) <==> Shows(hist, m, key, u);
      }
    }
  }

  // ---------------------------------------------------------------- representation

  predicate Known(lg: seq<int>, pc: seq<int>, key: Key) {
    key.i < if key.LG? then |lg| else |pc|
  }

  function Slot(lg: seq<int>, pc: seq<int>, key: Key): int
    requires Known(lg, pc, key)
  {
    if key.LG? then lg[key.i] else pc[key.i]
  }

  /** The chain is finite, has no repetitions, and hangs off a positive slot value. */
  ghost predicate ChainOk(cells: map<int, int>, v: int, ch: seq<int>) {
    if v <= 0 then ch == [] else
      && |ch| > 0 && ch[0] == v
      && (forall i :: 0 <= i < |ch| ==> ch[i] > 0 && ch[i] in cells
                                        && cells[ch[i]] == if i + 1 < |ch| then ch[i+1] else 0)
      && (forall i, j :: 0 <= i < j < |ch| ==> ch[i] != ch[j])
  }

  /** What the slot says about the past. */
  ghost predicate SlotOk(hist: seq<Event>, v: int, key: Key) {
    && v == SlotValue(hist, |hist|, key)
    && (v < 0 ==> LatestDef(hist, |hist|, key) == Some(-v))
    && (v == 0 ==> LatestDef(hist, |hist|, key) == None)
    && (v > 0 && !Local(key) ==> LatestDef(hist, |hist|, key) == None)
  }

  /** A reference cell holds its resolution, or is a link of its label's chain. */
  ghost predicate RefOk(cells: map<int, int>, chains: map<Key, seq<int>>, hist: seq<Event>, t: nat)
    requires t < |hist| && hist[t].Ref?
  {
    && hist[t].at in cells
    && hist[t].key in chains
    && match Resolve(hist, t)
       case Some(x) => cells[hist[t].at] == x
       case None => hist[t].at in chains[hist[t].key] && cells[hist[t].at] == ChainLink(hist, t)
  }

  ghost predicate PendingRef(hist: seq<Event>, t: nat, x: int, key: Key) {
    t < |hist| && hist[t].Ref? && hist[t].at == x && hist[t].key == key && Resolve(hist, t).None?
  }

  /** Some reference to the label waits for a definition. */
  ghost predicate Unresolved(hist: seq<Event>, key: Key) {
    exists t: nat, x: int :: PendingRef(hist, t, x, key)
  }

  ghost predicate Distinct(hist: seq<Event>) {
    forall t, u :: 0 <= t < u < |hist| && !hist[t].Reset? && !hist[u].Reset? ==> hist[t].at != hist[u].at
  }

  /** The whole label table, against the history: chains hold exactly the pending references. */
  ghost predicate LabelsOk(lg: seq<int>, pc: seq<int>, cells: map<int, int>,
                           chains: map<Key, seq<int>>, hist: seq<Event>) {
    && Distinct(hist)
    && (|lg| > 0 ==> lg[0] <= 0)
    && (forall key :: key in chains <==> Known(lg, pc, key))
    && (forall key :: key in chains ==> ChainOk(cells, Slot(lg, pc, key), chains[key])
                                        && SlotOk(hist, Slot(lg, pc, key), key))
    && (forall t :: 0 <= t < |hist| && !hist[t].Reset? ==> hist[t].at in cells && hist[t].key in chains)
    && PositionsPositive(hist)
    && (forall t :: 0 <= t < |hist| && hist[t].Ref? ==> RefOk(cells, chains, hist, t))
    && (forall key, x :: key in chains && x in chains[key] ==> exists t: nat :: PendingRef(hist, t, x, key))
  }

  function SetSlotLG(lg: seq<int>, key: Key, v: int): seq<int>
    requires key.LG? ==> key.i < |lg|
  {
    if key.LG? then lg[key.i := v] else lg
  }

  function SetSlotPC(pc: seq<int>, key: Key, v: int): seq<int>
    requires key.PC? ==> key.i < |pc|
  {
    if key.PC? then pc[key.i := v] else pc
  }

  /** Writing a cell no event knows about changes nothing. */
  lemma OtherCell(lg: seq<int>, pc: seq<int>, cells: map<int, int>, chains: map<Key, seq<int>>,
                  hist: seq<Event>, x: int, v: int)
    requires LabelsOk(lg, pc, cells, chains, hist)
    requires x !in cells
    ensures LabelsOk(lg, pc, cells[x := v], chains, hist)
  {
    var cells' := cells[x := v];
    forall key | key in chains
      ensures ChainOk(cells', Slot(lg, pc, key), chains[key])
    {
      assert ChainOk(cells, Slot(lg, pc, key), chains[key]);
    }
    forall t | 0 <= t < |hist| && hist[t].Ref?
      ensures RefOk(cells', chains, hist, t)
    {
      assert RefOk(cells, chains, hist, t);
    }
  }

  /** A reference to a label that is defined: its position is stored at once. */
  lemma AddResolved(lg: seq<int>, pc: seq<int>, cells: map<int, int>, chains: map<Key, seq<int>>,
                    hist: seq<Event>, x: int, key: Key)
    requires LabelsOk(lg, pc, cells, chains, hist)
    requires x !in cells && x > 0 && Known(lg, pc, key) && Slot(lg, pc, key) < 0
    ensures LabelsOk(lg, pc, cells[x := -Slot(lg, pc, key)], chains, hist + [Ref(x, key, false)])
  {
    var v := Slot(lg, pc, key);
    var e := Ref(x, key, false);
    OtherCell(lg, pc, cells, chains, hist, x, -v);
    KeepsState(lg, pc, cells[x := -v], chains, hist, e);
    assert SlotOk(hist, v, key);
    LatestDefExtends(hist, e, |hist|, key);
  }

  /** Recording a reference event leaves every earlier fact as it was. */
  lemma KeepsState(lg: seq<int>, pc: seq<int>, cells: map<int, int>, chains: map<Key, seq<int>>,
                   hist: seq<Event>, e: Event)
    requires LabelsOk(lg, pc, cells, chains, hist)
    requires e.Ref?
    ensures forall key :: key in chains && !(key == e.key && (e.fwd || (Slot(lg, pc, key) >= 0 && !Numbered(key))))
                          ==> SlotOk(hist + [e], Slot(lg, pc, key), key)
    ensures forall t :: 0 <= t < |hist| && hist[t].Ref? ==> RefOk(cells, chains, hist + [e], t)
    ensures forall key, x :: key in chains && x in chains[key] ==> exists t: nat :: PendingRef(hist + [e], t, x, key)
  {
    forall key | key in chains && !(key == e.key && (e.fwd || (Slot(lg, pc, key) >= 0 && !Numbered(key))))
      ensures SlotOk(hist + [e], Slot(lg, pc, key), key)
    {
      assert SlotOk(hist, Slot(lg, pc, key), key);
      LatestDefExtends(hist, e, |hist|, key);
      SlotValueExtends(hist, e, |hist|, key);
    }
    forall t | 0 <= t < |hist| && hist[t].Ref?
      ensures RefOk(cells, chains, hist + [e], t)
    {
      assert RefOk(cells, chains, hist, t);
      ResolveExtends(hist, e, t);
    }
    forall key, x | key in chains && x in chains[key]
      ensures exists t: nat :: PendingRef(hist + [e], t, x, key)
    {
      var t: nat :| PendingRef(hist, t, x, key);
      ResolveExtends(hist, e, t);
      assert PendingRef(hist + [e], t, x, key);
    }
  }

  lemma ChainPush(cells: map<int, int>, v: int, ch: seq<int>, x: int)
    requires ChainOk(cells, v, ch)
    requires x !in ch && x > 0 && x in cells && cells[x] == if v < 0 then 0 else v
    ensures ChainOk(cells, x, [x] + ch)
  {
  }

  lemma PendingIsCell(lg: seq<int>, pc: seq<int>, cells: map<int, int>, chains: map<Key, seq<int>>,
                      hist: seq<Event>, key: Key, x: int)
    requires LabelsOk(lg, pc, cells, chains, hist)
    requires key in chains && x in chains[key]
    ensures x in cells
  {
    var t: nat :| PendingRef(hist, t, x, key);
  }

  lemma NewPending(hist: seq<Event>, x: int, key: Key, fwd: bool, v: int)
    requires SlotOk(hist, v, key) && x > 0
    requires fwd || (v >= 0 && !Numbered(key))
    requires fwd ==> Local(key)
    ensures var hist' := hist + [Ref(x, key, fwd)];
            && Resolve(hist', |hist|).None? && SlotOk(hist', x, key)
            && ChainLink(hist', |hist|) == if v < 0 then 0 else v
  {
    var e := Ref(x, key, fwd);
    LatestDefExtends(hist, e, |hist|, key);
    SlotValueExtends(hist, e, |hist|, key);
    FirstDefExtends(hist, e, |hist|, key);
  }

  /** The slots and chains after a reference has become the head of its label's chain. */
  lemma PendingSlots(lg: seq<int>, pc: seq<int>, cells: map<int, int>, chains: map<Key, seq<int>>,
                     hist: seq<Event>, x: int, key: Key, k: Key)
    requires Known(lg, pc, key) && Known(lg, pc, k) && key in chains && k in chains
    requires ChainOk(cells, Slot(lg, pc, k), chains[k]) && (k != key ==> SlotOk(hist, Slot(lg, pc, k), k))
    requires x > 0 && x in cells && x !in chains[key] && SlotOk(hist, x, key)
    requires cells[x] == if Slot(lg, pc, key) < 0 then 0 else Slot(lg, pc, key)
    ensures var v := Slot(SetSlotLG(lg, key, x), SetSlotPC(pc, key, x), k);
            && ChainOk(cells, v, chains[key := [x] + chains[key]][k])
            && SlotOk(hist, v, k)
  {
    hide SlotOk;
    if k == key {
      hide ChainOk;
      ChainPush(cells, Slot(lg, pc, key), chains[key], x);
    }
  }

  /** A reference to a label that is not defined (or a forward one): it becomes the new head of the chain. */
  lemma AddPending(lg: seq<int>, pc: seq<int>, cells: map<int, int>, chains: map<Key, seq<int>>,
                   hist: seq<Event>, x: int, key: Key, fwd: bool)
    requires LabelsOk(lg, pc, cells, chains, hist)
    requires x !in cells && x > 0 && Known(lg, pc, key)
    requires fwd || (Slot(lg, pc, key) >= 0 && !Numbered(key))
    requires fwd ==> Local(key)
    ensures var v := Slot(lg, pc, key);
            LabelsOk(SetSlotLG(lg, key, x), SetSlotPC(pc, key, x), cells[x := if v < 0 then 0 else v],
                     chains[key := [x] + chains[key]], hist + [Ref(x, key, fwd)])
  {
    hide LatestDef;
    hide FirstDef;
    hide SlotValue;
    hide Resolve;
    hide ChainLink;
    hide ChainOk;
    hide SlotOk;
    var v := Slot(lg, pc, key);
    var e := Ref(x, key, fwd);
    var cells' := cells[x := if v < 0 then 0 else v];
    var chains' := chains[key := [x] + chains[key]];
    var lg', pc' := SetSlotLG(lg, key, x), SetSlotPC(pc, key, x);
    var hist' := hist + [e];
    if x in chains[key] { PendingIsCell(lg, pc, cells, chains, hist, key, x); }
    OtherCell(lg, pc, cells, chains, hist, x, if v < 0 then 0 else v);
    KeepsState(lg, pc, cells', chains, hist, e);
    assert SlotOk(hist, v, key);
    NewPending(hist, x, key, fwd, v);
    assert PendingRef(hist', |hist|, x, key);
    forall k | k in chains'
      ensures ChainOk(cells', Slot(lg', pc', k), chains'[k]) && SlotOk(hist', Slot(lg', pc', k), k)
    {
      PendingSlots(lg, pc, cells', chains, hist', x, key, k);
    }
    forall t | 0 <= t < |hist'| && hist'[t].Ref?
      ensures RefOk(cells', chains', hist', t)
    {
      if t < |hist| { assert RefOk(cells', chains, hist', t); }
    }
    forall k, y | k in chains' && y in chains'[k]
      ensures exists t: nat :: PendingRef(hist', t, y, k)
    {
      if k == key && y == x {
        assert PendingRef(hist', |hist|, x, key);
      } else {
        assert y in chains[k];
      }
    }
  }

  /** A slot is positive just when some reference to its label waits. */
  lemma SlotUnresolved(lg: seq<int>, pc: seq<int>, cells: map<int, int>, chains: map<Key, seq<int>>,
                       hist: seq<Event>, key: Key)
    requires LabelsOk(lg, pc, cells, chains, hist) && Known(lg, pc, key)
    ensures Slot(lg, pc, key) > 0 <==> Unresolved(hist, key)
  {
    hide SlotOk;
    assert key in chains;
    assert ChainOk(cells, Slot(lg, pc, key), chains[key]);
    if Slot(lg, pc, key) > 0 {
      assert chains[key][0] in chains[key];
    }
    if Unresolved(hist, key) {
      var t: nat, x: int :| PendingRef(hist, t, x, key);
      assert RefOk(cells, chains, hist, t);
    }
  }

  /** A positive slot names the reference that was recorded last among those that wait. */
  lemma {:induction false} WaitsBehind(hist: seq<Event>, n: nat, key: Key) returns (u: nat)
    requires n <= |hist| && SlotValue(hist, n, key) > 0 && PositionsPositive(hist)
    ensures u < n && hist[u].Ref? && hist[u].key == key && hist[u].at == SlotValue(hist, n, key)
    ensures forall w :: u < w < n ==> !(hist[w].Def? && hist[w].key == key)
    ensures Numbered(key) ==> hist[u].fwd
  {
    var v := SlotValue(hist, n - 1, key);
    var e := hist[n-1];
    if e.Ref? && e.key == key && (e.fwd || (v >= 0 && !Numbered(key))) {
      u := n - 1;
    } else {
      u := WaitsBehind(hist, n - 1, key);
    }
  }

  lemma {:induction false} FirstDefSkips(hist: seq<Event>, n: nat, m: nat, key: Key)
    requires n <= m <= |hist| && forall w :: n <= w < m ==> !(hist[w].Def? && hist[w].key == key)
    ensures FirstDef(hist, n, key) == FirstDef(hist, m, key)
    decreases m - n
  {
    if n < m { FirstDefSkips(hist, n + 1, m, key); }
  }

  /** The reference that a waiting local reference is linked to waits as well. */
  lemma EarlierWaits(hist: seq<Event>, t: nat) returns (u: nat)
    requires t < |hist| && hist[t].Ref? && Local(hist[t].key) && Resolve(hist, t).None?
    requires PositionsPositive(hist) && ChainLink(hist, t) > 0
    ensures u < t && hist[u].Ref? && hist[u].key == hist[t].key && hist[u].at == ChainLink(hist, t)
    ensures Resolve(hist, u).None?
  {
    u := WaitsBehind(hist, t, hist[t].key);
    FirstDefSkips(hist, u + 1, t + 1, hist[t].key);
  }

  /** A pc label has been referred to or defined. */
  predicate Mentions(e: Event, key: Key) {
    !e.Reset? && e.key == key
  }

  ghost predicate Mentioned(hist: seq<Event>, key: Key) {
    exists e :: e in hist && Mentions(e, key)
  }

  /** The slot of a label that step checks do not forget is 0 just as long as nothing mentions the label. */
  lemma {:induction false} SlotUnused(hist: seq<Event>, n: nat, key: Key)
    requires n <= |hist| && PositionsPositive(hist) && !Numbered(key)
    ensures SlotValue(hist, n, key) == 0 <==> forall t :: 0 <= t < n ==> !Mentions(hist[t], key)
  {
    if n > 0 { SlotUnused(hist, n - 1, key); }
  }

  /** The cells after the chain `ch` has been walked and each link overwritten with v. */
  function Collapsed(cells: map<int, int>, ch: seq<int>, v: int): map<int, int> {
    map x | x in cells :: if x in ch then v else cells[x]
  }

  /** A reference cell is a link of its own label's chain or of none. */
  lemma ChainMembership(lg: seq<int>, pc: seq<int>, cells: map<int, int>, chains: map<Key, seq<int>>,
                        hist: seq<Event>, t: nat, key: Key)
    requires LabelsOk(lg, pc, cells, chains, hist)
    requires t < |hist| && hist[t].Ref? && key in chains
    ensures hist[t].at in chains[key] <==> hist[t].key == key && Resolve(hist, t).None?
  {
    assert RefOk(cells, chains, hist, t);
    if hist[t].at in chains[key] {
      var u: nat :| PendingRef(hist, u, hist[t].at, key);
      assert u == t;
    }
  }

  lemma ChainsDisjoint(lg: seq<int>, pc: seq<int>, cells: map<int, int>, chains: map<Key, seq<int>>,
                       hist: seq<Event>, k: Key, key: Key, x: int)
    requires LabelsOk(lg, pc, cells, chains, hist)
    requires k in chains && key in chains && k != key && x in chains[k]
    ensures x !in chains[key]
  {
    var t: nat :| PendingRef(hist, t, x, k);
    ChainMembership(lg, pc, cells, chains, hist, t, key);
  }

  /** The chain of another label does not notice. */
  lemma OtherChainKeeps(lg: seq<int>, pc: seq<int>, cells: map<int, int>, chains: map<Key, seq<int>>,
                        hist: seq<Event>, x: int, key: Key, ofs: int, k: Key)
    requires LabelsOk(lg, pc, cells, chains, hist)
    requires x !in cells && key in chains && k in chains && k != key
    ensures ChainOk(Collapsed(cells, chains[key], x)[x := ofs], Slot(lg, pc, k), chains[k])
    ensures SlotOk(hist + [Def(x, key)], Slot(lg, pc, k), k)
  {
    assert ChainOk(cells, Slot(lg, pc, k), chains[k]) && SlotOk(hist, Slot(lg, pc, k), k);
    forall y | y in chains[k] ensures y !in chains[key] && y != x {
      ChainsDisjoint(lg, pc, cells, chains, hist, k, key, y);
      PendingIsCell(lg, pc, cells, chains, hist, k, y);
    }
    LatestDefExtends(hist, Def(x, key), |hist|, k);
    SlotValueExtends(hist, Def(x, key), |hist|, k);
  }

  lemma DefinitionResolves(lg: seq<int>, pc: seq<int>, cells: map<int, int>, chains: map<Key, seq<int>>,
                           hist: seq<Event>, x: int, key: Key, ofs: int, t: nat)
    requires LabelsOk(lg, pc, cells, chains, hist)
    requires x !in cells && key in chains && t < |hist| && hist[t].Ref?
    ensures RefOk(Collapsed(cells, chains[key], x)[x := ofs], chains[key := []], hist + [Def(x, key)], t)
  {
    hide ChainOk;
    hide SlotOk;
    assert RefOk(cells, chains, hist, t);
    ResolveExtends(hist, Def(x, key), t);
    ChainMembership(lg, pc, cells, chains, hist, t, key);
  }

  lemma NewDefinition(hist: seq<Event>, x: int, key: Key)
    requires x > 0
    ensures SlotOk(hist + [Def(x, key)], -x, key)
  {
  }

  /** Defining a label resolves every reference that waits for it and no other one. */
  lemma AddDefinition(lg: seq<int>, pc: seq<int>, cells: map<int, int>, chains: map<Key, seq<int>>,
                      hist: seq<Event>, x: int, key: Key, ofs: int)
    requires LabelsOk(lg, pc, cells, chains, hist)
    requires x !in cells && x > 0 && Known(lg, pc, key)
    ensures LabelsOk(SetSlotLG(lg, key, -x), SetSlotPC(pc, key, -x),
                     Collapsed(cells, chains[key], x)[x := ofs], chains[key := []], hist + [Def(x, key)])
  {
    hide Resolve;
    hide ChainLink;
    hide SlotValue;
    hide LatestDef;
    hide SlotOk;
    var e := Def(x, key);
    NewDefinition(hist, x, key);
    var cells' := Collapsed(cells, chains[key], x)[x := ofs];
    var chains' := chains[key := []];
    var lg', pc' := SetSlotLG(lg, key, -x), SetSlotPC(pc, key, -x);
    var hist' := hist + [e];
    forall k | k in chains'
      ensures ChainOk(cells', Slot(lg', pc', k), chains'[k]) && SlotOk(hist', Slot(lg', pc', k), k)
    {
      if k != key {
        assert Slot(lg', pc', k) == Slot(lg, pc, k);
        OtherChainKeeps(lg, pc, cells, chains, hist, x, key, ofs, k);
      }
    }
    forall t | 0 <= t < |hist'| && hist'[t].Ref?
      ensures RefOk(cells', chains', hist', t)
    {
      DefinitionResolves(lg, pc, cells, chains, hist, x, key, ofs, t);
    }
    forall k, y | k in chains' && y in chains'[k]
      ensures exists t: nat :: PendingRef(hist', t, y, k)
    {
      var t: nat :| PendingRef(hist, t, y, k);
      ResolveExtends(hist, e, t);
      assert PendingRef(hist', t, y, k);
    }
  }

  /** The local labels are forgotten; the caller has found no pending one. */
  function Forgotten(lg: seq<int>): (r: seq<int>)
    ensures |r| == |lg|
  {
    seq(|lg|, i requires 0 <= i < |lg| => if 1 <= i <= 9 then 0 else lg[i])
  }

  lemma AddReset(lg: seq<int>, pc: seq<int>, cells: map<int, int>, chains: map<Key, seq<int>>, hist: seq<Event>)
    requires LabelsOk(lg, pc, cells, chains, hist)
    requires forall i :: 1 <= i <= 9 && i < |lg| ==> lg[i] <= 0
    ensures LabelsOk(Forgotten(lg), pc, cells, chains, hist + [Reset])
  {
    var hist' := hist + [Reset];
    var lg' := Forgotten(lg);
    forall k | k in chains
      ensures ChainOk(cells, Slot(lg', pc, k), chains[k]) && SlotOk(hist', Slot(lg', pc, k), k)
    {
      assert ChainOk(cells, Slot(lg, pc, k), chains[k]) && SlotOk(hist, Slot(lg, pc, k), k);
      LatestDefExtends(hist, Reset, |hist|, k);
      SlotValueExtends(hist, Reset, |hist|, k);
    }
    forall t | 0 <= t < |hist'| && hist'[t].Ref?
      ensures RefOk(cells, chains, hist', t)
    {
      assert RefOk(cells, chains, hist, t);
      ResolveExtends(hist, Reset, t);
    }
    forall k, y | k in chains && y in chains[k]
      ensures exists t: nat :: PendingRef(hist', t, y, k)
    {
      var t: nat :| PendingRef(hist, t, y, k);
      ResolveExtends(hist, Reset, t);
      assert PendingRef(hist', t, y, k);
    }
  }

  // ---------------------------------------------------------------- undefined globals

  ghost predicate InChain(chains: map<Key, seq<int>>, i: nat, x: int) {
    LG(i) in chains && x in chains[LG(i)]
  }

  ghost predicate Unmarked(chains: map<Key, seq<int>>, n: nat, x: int) {
    forall i :: 10 <= i < n ==> !InChain(chains, i, x)
  }

  /** The chains of the globals below n have been overwritten with the marker -idx; other cells are untouched. */
  ghost predicate Marked(cells0: map<int, int>, cells: map<int, int>, chains: map<Key, seq<int>>, n: nat) {
    && cells.Keys == cells0.Keys
    && (forall i, x :: 10 <= i < n && InChain(chains, i, x) && x in cells ==> cells[x] == 0 - i)
    && (forall x :: x in cells && Unmarked(chains, n, x) ==> cells[x] == cells0[x])
  }

  lemma MarkStep(lg: seq<int>, pc: seq<int>, cells0: map<int, int>, cells: map<int, int>,
                 chains: map<Key, seq<int>>, hist: seq<Event>, n: nat)
    requires LabelsOk(lg, pc, cells0, chains, hist) && 10 <= n < |lg|
    requires Marked(cells0, cells, chains, n)
    ensures LG(n) in chains && ChainOk(cells, lg[n], chains[LG(n)])
    ensures Marked(cells0, Collapsed(cells, chains[LG(n)], 0 - n), chains, n + 1)
  {
    assert Known(lg, pc, LG(n));
    var ch := chains[LG(n)];
    assert ChainOk(cells0, lg[n], ch) by { assert ChainOk(cells0, Slot(lg, pc, LG(n)), ch); }
    forall x | x in ch ensures Unmarked(chains, n, x) {
      forall i | 10 <= i < n && InChain(chains, i, x) ensures false {
        ChainsDisjoint(lg, pc, cells0, chains, hist, LG(n), LG(i), x);
      }
    }
    hide LabelsOk;
    var cells' := Collapsed(cells, ch, 0 - n);
    forall i, x | 10 <= i < n + 1 && InChain(chains, i, x) && x in cells' ensures cells'[x] == 0 - i {
      if i < n { assert x !in ch; }
    }
    forall x | x in cells' && Unmarked(chains, n + 1, x) ensures cells'[x] == cells0[x] {
      assert !InChain(chains, n, x);
      assert Unmarked(chains, n, x);
    }
  }

  /** What every reference cell holds in the end: the position of the definition it stands for or,
      where there is none, the marker of a global or the link of a local label's chain. */
  ghost predicate FinalRef(cells: map<int, int>, hist: seq<Event>, t: nat)
    requires t < |hist| && hist[t].Ref?
  {
    && hist[t].at in cells
    && match Resolve(hist, t)
       case Some(x) => cells[hist[t].at] == x
       case None =>
         && hist[t].key.LG? && hist[t].key.i != 0
         && cells[hist[t].at] == if hist[t].key.i >= 10 then 0 - hist[t].key.i else ChainLink(hist, t)
  }

  lemma AllRefsFinal(lg: seq<int>, pc: seq<int>, cells0: map<int, int>, cells: map<int, int>,
                     chains: map<Key, seq<int>>, hist: seq<Event>, t: nat)
    requires LabelsOk(lg, pc, cells0, chains, hist)
    requires Marked(cells0, cells, chains, |lg|)
    requires forall i :: 0 <= i < |pc| ==> pc[i] <= 0
    requires t < |hist| && hist[t].Ref?
    ensures FinalRef(cells, hist, t)
  {
    hide LatestDef;
    hide FirstDef;
    hide ChainLink;
    hide SlotOk;
    var key := hist[t].key;
    assert RefOk(cells0, chains, hist, t);
    assert key in chains;
    if Resolve(hist, t).None? {
      assert ChainOk(cells0, Slot(lg, pc, key), chains[key]);
      assert key.LG? && key.i != 0;
    }
    if Resolve(hist, t).None? && key.i >= 10 {
      assert InChain(chains, key.i, hist[t].at);
    } else {
      forall i | 10 <= i < |lg| && InChain(chains, i, hist[t].at) ensures false {
        ChainMembership(lg, pc, cells0, chains, hist, t, LG(i));
      }
      assert Unmarked(chains, |lg|, hist[t].at);
    }
  }

  /** A global that a reference finds undefined is defined nowhere in the unit. */
  lemma {:induction false} NoLatest(hist: seq<Event>, n: nat, key: Key, t: nat)
    requires t < n <= |hist| && !Local(key) && LatestDef(hist, n, key).None?
    ensures !(hist[t].Def? && hist[t].key == key)
  {
    if t < n - 1 { NoLatest(hist, n - 1, key, t); }
  }

  lemma {:induction false} NoFirst(hist: seq<Event>, n: nat, key: Key, t: nat)
    requires n <= t < |hist| && FirstDef(hist, n, key).None?
    ensures !(hist[t].Def? && hist[t].key == key)
    decreases |hist| - n
  {
    if n < t { NoFirst(hist, n + 1, key, t); }
  }

  lemma UndefinedEverywhere(hist: seq<Event>, t: nat, x: int)
    requires t < |hist| && hist[t].Ref? && !Local(hist[t].key) && !hist[t].fwd && Resolve(hist, t).None?
    ensures Def(x, hist[t].key) !in hist
  {
    if Def(x, hist[t].key) in hist {
      var u :| 0 <= u < |hist| && hist[u] == Def(x, hist[t].key);
      if u < t { NoLatest(hist, t, hist[t].key, u); } else { NoFirst(hist, t + 1, hist[t].key, u); }
    }
  }
}
