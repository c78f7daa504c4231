/**
  The invariant that ties the encoder's buffers, offsets and label table to a
  log of everything the puts have recorded.
 */
module DasmStore {
  import opened DasmCode
  import opened DasmLabels
  import opened DasmActions

  /** Positions are a section number and a 24 bit index. */
  const BIAS: int := 0x1000000

  ghost predicate SectionOk(al: ActionList, s: nat, pos: int, ofs: int, L: seq<Item>) {
    && LogOk(al, s * BIAS, L)
    && pos == EndAt(s * BIAS, L) < s * BIAS + BIAS
    && ofs == EndEst(L)
  }

  ghost predicate StoreOk(al: ActionList, pos: seq<int>, ofs: seq<int>, cells: map<int, int>,
                          links: set<int>, log: seq<seq<Item>>) {
    && |pos| == |ofs| == |log|
    && (forall s {:trigger SectionOk(al, s, pos[s], ofs[s], log[s])} ::
          0 <= s < |log| ==> SectionOk(al, s, pos[s], ofs[s], log[s]))
    && (forall s, k {:trigger CellOk(cells, links, log[s][k])} ::
          0 <= s < |log| && 0 <= k < |log[s]| ==> CellOk(cells, links, log[s][k]))
    && (forall x :: x in cells ==> 0 <= x && x / BIAS < |log| && x < pos[x / BIAS])
    && (forall x :: x in links ==> x in cells)
  }

  /** The item that a label event comes from. */
  ghost predicate EventItem(log: seq<seq<Item>>, s: nat, k: nat, e: Event) {
    && s < |log| && k < |log[s]|
    && log[s][k].HasEvent() && log[s][k].KeyOk() && log[s][k].LabelEvent() == e
  }

  ghost predicate Matched(log: seq<seq<Item>>, links: set<int>, hist: seq<Event>) {
    && (forall s, k :: 0 <= s < |log| && 0 <= k < |log[s]| && log[s][k].HasEvent()
                       ==> log[s][k].KeyOk() && log[s][k].LabelEvent() in hist)
    && (forall e :: e in hist && !e.Reset? ==> exists s: nat, k: nat :: EventItem(log, s, k, e))
    && (forall e :: e in hist && e.Ref? ==> e.at in links)
  }

  ghost predicate Complete(log: seq<seq<Item>>) {
    forall s :: 0 <= s < |log| && log[s] != [] ==> log[s][|log[s]|-1].a.Terminal()
  }

  /** The first put goes to section 0. */
  ghost predicate Rooted(log: seq<seq<Item>>) {
    forall s :: 0 <= s < |log| && log[s] != [] ==> log[0] != []
  }

  function Appended(log: seq<seq<Item>>, s: nat, it: Item): seq<seq<Item>>
    requires s < |log|
  {
    log[s := log[s] + [it]]
  }

  lemma LogAppend(al: ActionList, base: int, L: seq<Item>, it: Item)
    requires LogOk(al, base, L)
    requires L == [] ==> it.a.Start? && it.at == base && it.est == 0
    requires L != [] ==> Follows(al, L[|L|-1], it)
    requires ItemOk(al, L + [it], |L|)
    ensures LogOk(al, base, L + [it])
    ensures EndAt(base, L + [it]) == it.at + it.a.Slots() && EndEst(L + [it]) == it.est + it.Grows()
  {
    var L' := L + [it];
    forall k | 0 <= k < |L'| ensures ItemOk(al, L', k) {
      if k < |L| {
        assert ItemOk(al, L, k);
        assert L'[k] == L[k];
      }
    }
    forall k | 0 < k < |L'| ensures Follows(al, L'[k-1], L'[k]) {
      if k < |L| { assert Follows(al, L[k-1], L[k]); }
    }
  }

  /** The buffer positions of an item. */
  function SlotCells(it: Item): set<int> {
    match it.a.Slots()
    case 0 => {}
    case 1 => {it.at}
    case _ => {it.at, it.at + 1}
  }

  /** Link cells may change and fresh cells may appear without disturbing what an item left behind. */
  lemma CellKeeps(cells: map<int, int>, links: set<int>, cells': map<int, int>, links': set<int>, it: Item)
    requires CellOk(cells, links, it)
    requires cells.Keys <= cells'.Keys
    requires forall x :: x in cells && x !in links ==> cells'[x] == cells[x]
    requires links <= links' && (forall x :: x in links' && x !in links ==> x !in cells)
    ensures CellOk(cells', links', it)
  {
  }

  lemma SectionStarts(al: ActionList, pos: seq<int>, ofs: seq<int>, cells: map<int, int>, links: set<int>,
                      log: seq<seq<Item>>, s: nat)
    requires StoreOk(al, pos, ofs, cells, links, log) && s < |log|
    ensures s * BIAS <= pos[s] < s * BIAS + BIAS && 0 <= ofs[s]
    ensures forall x :: s * BIAS <= x < s * BIAS + BIAS && x in cells ==> x < pos[s]
    ensures forall x :: s * BIAS <= x < s * BIAS + BIAS && x in links ==> x < pos[s]
    ensures |pos| == |ofs| == |log|
  {
    assert SectionOk(al, s, pos[s], ofs[s], log[s]);
    if log[s] != [] {
      Ascending(al, s * BIAS, log[s], |log[s]| - 1, |log[s]| - 1);
      assert ItemOk(al, log[s], |log[s]| - 1);
    }
    forall x | s * BIAS <= x < s * BIAS + BIAS && x in cells ensures x < pos[s] {
      assert x / BIAS == s;
    }
  }

  /** One more item: its cells are fresh and only link cells of older items may have changed. */
  lemma StoreAppend(al: ActionList, pos: seq<int>, ofs: seq<int>, cells: map<int, int>, links: set<int>,
                    log: seq<seq<Item>>, s: nat, it: Item, cells': map<int, int>, links': set<int>)
    requires StoreOk(al, pos, ofs, cells, links, log) && s < |log|
    requires it.at == pos[s] && it.est == ofs[s]
    requires LogOk(al, s * BIAS, log[s] + [it])
    requires pos[s] + it.a.Slots() < s * BIAS + BIAS
    requires cells'.Keys == cells.Keys + SlotCells(it)
    requires forall x :: x in cells && x !in links ==> cells'[x] == cells[x]
    requires links' == links || (it.a.IsRef() && links' == links + {it.at})
    requires CellOk(cells', links', it)
    ensures StoreOk(al, pos[s := pos[s] + it.a.Slots()], ofs[s := ofs[s] + it.Grows()], cells', links',
                    Appended(log, s, it))
  {
    hide LogOk;
    var log': seq<seq<Item>> := Appended(log, s, it);
    var pos' := pos[s := pos[s] + it.a.Slots()];
    var ofs' := ofs[s := ofs[s] + it.Grows()];
    SectionStarts(al, pos, ofs, cells, links, log, s);
    assert it.at !in cells;
    forall t | 0 <= t < |log'| ensures SectionOk(al, t, pos'[t], ofs'[t], log'[t]) {
      assert SectionOk(al, t, pos[t], ofs[t], log[t]);
    }
    forall t, k | 0 <= t < |log'| && 0 <= k < |log'[t]| ensures CellOk(cells', links', log'[t][k]) {
      if t != s || k < |log[s]| {
        assert log'[t][k] == log[t][k];
        CellKeeps(cells, links, cells', links', log[t][k]);
      }
    }
    hide CellOk;
    hide SectionOk;
    forall x | x in cells' ensures 0 <= x && x / BIAS < |log'| && x < pos'[x / BIAS] {
      if x in cells {
        assert x < pos[x / BIAS] <= pos'[x / BIAS];
      } else {
        assert s * BIAS <= x < s * BIAS + BIAS;
        assert x / BIAS == s;
      }
    }
  }

  /** Matching of items and events when an item without a label is logged. */
  lemma MatchedPlain(log: seq<seq<Item>>, links: set<int>, hist: seq<Event>, s: nat, it: Item)
    requires Matched(log, links, hist) && s < |log| && !it.HasEvent()
    ensures Matched(Appended(log, s, it), links, hist)
  {
    var log': seq<seq<Item>> := Appended(log, s, it);
    forall t, k | 0 <= t < |log'| && 0 <= k < |log'[t]| && log'[t][k].HasEvent()
      ensures log'[t][k].KeyOk() && log'[t][k].LabelEvent() in hist
    {
      assert log'[t][k] == log[t][k];
    }
    forall e | e in hist && !e.Reset? ensures exists t: nat, k: nat :: EventItem(log', t, k, e) {
      var t: nat, k: nat :| EventItem(log, t, k, e);
      assert EventItem(log', t, k, e);
    }
  }

  lemma MatchedEvent(log: seq<seq<Item>>, links: set<int>, hist: seq<Event>, s: nat, it: Item, links': set<int>)
    requires Matched(log, links, hist) && s < |log| && it.HasEvent() && it.KeyOk()
    requires links' == if it.a.IsRef() then links + {it.at} else links
    ensures Matched(Appended(log, s, it), links', hist + [it.LabelEvent()])
  {
    var log': seq<seq<Item>> := Appended(log, s, it);
    var hist' := hist + [it.LabelEvent()];
    assert hist'[|hist|] == it.LabelEvent();
    forall t, k | 0 <= t < |log'| && 0 <= k < |log'[t]| && log'[t][k].HasEvent()
      ensures log'[t][k].KeyOk() && log'[t][k].LabelEvent() in hist'
    {
      if !(t == s && k == |log[s]|) { assert log'[t][k] == log[t][k]; }
    }
    forall e | e in hist' && !e.Reset? ensures exists t: nat, k: nat :: EventItem(log', t, k, e) {
      if e in hist {
        var t: nat, k: nat :| EventItem(log, t, k, e);
        assert EventItem(log', t, k, e);
      } else {
        assert EventItem(log', s, |log[s]|, e);
      }
    }
  }

  // ---------------------------------------------------------------- the whole state

  /** What the encoder stores: label slots, section positions and offsets, buffer cells. */
  datatype Store = Store(lg: seq<int>, pc: seq<int>, pos: seq<int>, ofs: seq<int>, cells: map<int, int>)

  /** What the puts have recorded so far: an item log per section and the label history. */
  datatype Trail = Trail(log: seq<seq<Item>>, links: set<int>, chains: map<Key, seq<int>>, hist: seq<Event>)

  ghost predicate Inv(al: ActionList, st: Store, tr: Trail) {
    && |st.lg| >= 10
    && StoreOk(al, st.pos, st.ofs, st.cells, tr.links, tr.log)
    && LabelsOk(st.lg, st.pc, st.cells, tr.chains, tr.hist)
    && Matched(tr.log, tr.links, tr.hist)
  }

  /** `it` is what comes next in section s. */
  ghost predicate NextItem(al: ActionList, st: Store, tr: Trail, s: nat, it: Item) {
    && s < |tr.log| && |st.pos| == |st.ofs| == |tr.log|
    && it.at == st.pos[s] && it.est == st.ofs[s]
    && LogOk(al, s * BIAS, tr.log[s] + [it])
    && it.at + it.a.Slots() < s * BIAS + BIAS
  }

  /** Section s after `it`, with the given cells. */
  function Advance(st: Store, s: nat, it: Item, cells: map<int, int>): Store
    requires s < |st.pos| && s < |st.ofs|
  {
    st.(pos := st.pos[s := st.pos[s] + it.a.Slots()], ofs := st.ofs[s := st.ofs[s] + it.Grows()], cells := cells)
  }

  lemma InvPlain(al: ActionList, st: Store, tr: Trail, s: nat, it: Item, v: int)
    requires Inv(al, st, tr) && NextItem(al, st, tr, s, it)
    requires !it.HasEvent() && it.a.Slots() <= 1
    requires CellOk(if it.a.Slots() == 1 then st.cells[it.at := v] else st.cells, tr.links, it)
    ensures var cells' := if it.a.Slots() == 1 then st.cells[it.at := v] else st.cells;
            Inv(al, Advance(st, s, it, cells'), tr.(log := Appended(tr.log, s, it)))
  {
    hide LabelsOk;
    hide Matched;
    hide StoreOk;
    hide LogOk;
    var cells' := if it.a.Slots() == 1 then st.cells[it.at := v] else st.cells;
    SectionStarts(al, st.pos, st.ofs, st.cells, tr.links, tr.log, s);
    StoreAppend(al, st.pos, st.ofs, st.cells, tr.links, tr.log, s, it, cells', tr.links);
    MatchedPlain(tr.log, tr.links, tr.hist, s, it);
    if it.a.Slots() == 1 {
      OtherCell(st.lg, st.pc, st.cells, tr.chains, tr.hist, it.at, v);
    }
  }

  /** The second cell of a relative reference holds pass 1's offset estimate. */
  function WithEstimate(cells: map<int, int>, it: Item): map<int, int> {
    if it.a.IsRel() then cells[it.at + 1 := it.est + 4] else cells
  }

  /** A backward or global reference whose label exists. */
  lemma InvResolved(al: ActionList, st: Store, tr: Trail, s: nat, it: Item)
    requires Inv(al, st, tr) && NextItem(al, st, tr, s, it) && it.at > 0
    requires it.a.IsRef() && it.KeyOk() && !it.Forward() && Known(st.lg, st.pc, it.Label())
    requires Slot(st.lg, st.pc, it.Label()) < 0
    ensures Inv(al, Advance(st, s, it, WithEstimate(st.cells[it.at := -Slot(st.lg, st.pc, it.Label())], it)),
                tr.(log := Appended(tr.log, s, it), links := tr.links + {it.at}, hist := tr.hist + [it.LabelEvent()]))
  {
    hide LabelsOk;
    hide Matched;
    hide StoreOk;
    hide LogOk;
    var v := Slot(st.lg, st.pc, it.Label());
    var cells1 := st.cells[it.at := -v];
    var hist' := tr.hist + [it.LabelEvent()];
    SectionStarts(al, st.pos, st.ofs, st.cells, tr.links, tr.log, s);
    AddResolved(st.lg, st.pc, st.cells, tr.chains, tr.hist, it.at, it.Label());
    if it.a.IsRel() {
      OtherCell(st.lg, st.pc, cells1, tr.chains, hist', it.at + 1, it.est + 4);
    }
    StoreAppend(al, st.pos, st.ofs, st.cells, tr.links, tr.log, s, it, WithEstimate(cells1, it), tr.links + {it.at});
    MatchedEvent(tr.log, tr.links, tr.hist, s, it, tr.links + {it.at});
  }

  /** A forward reference, or one whose label does not exist yet: linked into the chain. */
  lemma InvPending(al: ActionList, st: Store, tr: Trail, s: nat, it: Item)
    requires Inv(al, st, tr) && NextItem(al, st, tr, s, it) && it.at > 0
    requires it.a.IsRef() && it.KeyOk() && Known(st.lg, st.pc, it.Label())
    requires it.Forward() || (Slot(st.lg, st.pc, it.Label()) >= 0 && !Numbered(it.Label()))
    requires it.Label() in tr.chains
    ensures var v := Slot(st.lg, st.pc, it.Label());
            var key := it.Label();
            Inv(al, Advance(st, s, it, WithEstimate(st.cells[it.at := if v < 0 then 0 else v], it))
                      .(lg := SetSlotLG(st.lg, key, it.at), pc := SetSlotPC(st.pc, key, it.at)),
                Trail(Appended(tr.log, s, it), tr.links + {it.at}, tr.chains[key := [it.at] + tr.chains[key]],
                      tr.hist + [it.LabelEvent()]))
  {
    hide Matched;
    hide LabelsOk;
    hide StoreOk;
    hide LogOk;
    var v := Slot(st.lg, st.pc, it.Label());
    var key := it.Label();
    var cells1 := st.cells[it.at := if v < 0 then 0 else v];
    var hist' := tr.hist + [it.LabelEvent()];
    SectionStarts(al, st.pos, st.ofs, st.cells, tr.links, tr.log, s);
    AddPending(st.lg, st.pc, st.cells, tr.chains, tr.hist, it.at, key, it.Forward());
    if it.a.IsRel() {
      OtherCell(SetSlotLG(st.lg, key, it.at), SetSlotPC(st.pc, key, it.at), cells1,
                tr.chains[key := [it.at] + tr.chains[key]], hist', it.at + 1, it.est + 4);
    }
    StoreAppend(al, st.pos, st.ofs, st.cells, tr.links, tr.log, s, it, WithEstimate(cells1, it), tr.links + {it.at});
    MatchedEvent(tr.log, tr.links, tr.hist, s, it, tr.links + {it.at});
  }

  /** A label definition, after its chain has been collapsed. */
  lemma InvDefined(al: ActionList, st: Store, tr: Trail, s: nat, it: Item)
    requires Inv(al, st, tr) && NextItem(al, st, tr, s, it) && it.at > 0
    requires it.a.IsLabel() && it.KeyOk() && Known(st.lg, st.pc, it.Label()) && it.Label() in tr.chains
    ensures var key := it.Label();
            Inv(al, Advance(st, s, it, Collapsed(st.cells, tr.chains[key], it.at)[it.at := it.est])
                      .(lg := SetSlotLG(st.lg, key, -it.at), pc := SetSlotPC(st.pc, key, -it.at)),
                Trail(Appended(tr.log, s, it), tr.links, tr.chains[key := []], tr.hist + [it.LabelEvent()]))
  {
    hide LabelsOk;
    hide Matched;
    hide StoreOk;
    hide LogOk;
    var key := it.Label();
    ChainsAreLinks(al, st, tr, key);
    var cells' := Collapsed(st.cells, tr.chains[key], it.at)[it.at := it.est];
    SectionStarts(al, st.pos, st.ofs, st.cells, tr.links, tr.log, s);
    AddDefinition(st.lg, st.pc, st.cells, tr.chains, tr.hist, it.at, key, it.est);
    StoreAppend(al, st.pos, st.ofs, st.cells, tr.links, tr.log, s, it, cells', tr.links);
    MatchedEvent(tr.log, tr.links, tr.hist, s, it, tr.links);
  }

  lemma ChainsAreLinks(al: ActionList, st: Store, tr: Trail, key: Key)
    requires Inv(al, st, tr) && key in tr.chains
    ensures forall x :: x in tr.chains[key] ==> x in tr.links
  {
    forall x | x in tr.chains[key] ensures x in tr.links {
      var t: nat :| PendingRef(tr.hist, t, x, key);
      assert tr.hist[t] in tr.hist;
    }
  }
}
