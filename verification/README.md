# Verified models of LuaJIT's encoders, allocator, matcher and dumps

Node9 carries a copy of LuaJIT 2.0.4.  This project models the parts of it whose correctness is hard to see from the
code, and proves what they promise for all inputs and all runs.  All files are checked together:

    dafny verify dfyconfig.toml

What is modelled, and the main results:

* **DynASM, x86** (`Dasm*.dfy`).  `Dasm` is the encoder with its three passes over mutable label arrays and section
  buffers.  Pass 1 threads unresolved references through the buffer cells; pass 2 shrinks branches and padding in one
  sweep, deciding on estimates for what lies ahead; pass 3 writes bytes and patches opcodes already written.
  `DasmRun.Replay` says what a sequence of puts and step checks comes to, without the buffers: which items are in which
  section, and the history of label references and definitions.  `DasmRun.Assemble` ties every run to it: the run ends
  with code just when no step stops it and no pc label stays undefined; then the phase error does not occur and every
  relative branch, short or long, whose reference the history resolves lands on that definition.  `DasmBytes` says which
  bytes stand for each recorded item.
* **The bundled allocator** (`Alloc*.dfy`).  Tries as values (`AllocTree`), their index arithmetic (`AllocBins`), the
  best-fit search (`AllocSearch`), the same tries in memory with child, parent and ring pointers changed in place
  (`AllocLinks`) and searched by following them (`AllocFind`), small bins as lists through a header whose links go stale
  (`AllocSmall`), boundary tags (`AllocTags`), the heap invariant and how each change of tags carries it along
  (`AllocInv`, `AllocSteps`), which chunk serves a request (`AllocServe`), and malloc, free and realloc over those bins
  (`AllocHeap.Allocator`).  64-bit constants; the operating system is an oracle that grants a fresh range or fails.
* **Lua patterns** (`LuaPattern`, `LuaMatcher`, `LuaSearch`, `LuaGsub`).  The meaning of a pattern is given without
  search: a choice of repetition counts either leads to a match, fails or raises an error.  The matcher over its
  mutable capture stack returns the outcome of the first choice that does not fail, in greedy/lazy priority, and leaves
  the captures as they were when it fails.  `LuaGsub.Gsub` weaves replacements into the subject along the run of matches.
* **Bytecode dumps** (`Bc*.dfy`).  Writer and reader as classes over buffers, proved against a pure format; a round trip
  for every prototype tree; which bytes are a dump, as a relation (`BcGrammar`), those and no others being read; and the
  exact condition on the pieces of the input under which bytes behind a dump are noticed.
* **table.sort** (`TableSort`), the **register shuffle** of side traces (`RegShuffle`), **luaL_ref** (`RefTable`) and the
  **%q** conversion (`LuaQuote`).

Where the code and what one might expect of it differ:

* A backward branch is short exactly when a byte reaches its label (`DasmCode.BackwardShortExactly`).  A forward one is
  short exactly when pass 1's estimate of the bytes in between is at most 127 (`DasmCode.ForwardShortExactly`), so it can
  stay long although its final distance fits a byte (`DasmCode.ForwardChoiceIsConservative`).
* A forward reference to a local label hides an earlier definition of it: a backward reference behind it is refused
  (`DasmRun.ForwardHidesDefinition`).  A backward local reference is refused exactly when no definition has been recorded
  since the last step check, or a forward reference has been since (`DasmLabels.SlotShows`, `DasmEncoder.Refused`).
* Linking does not look for local labels that are still referred to; only the step check does.  Sizes and phases agree all
  the same, but such a branch is encoded for whatever its chain link happens to hold (`DasmEncoder.Dasm.WaitingIsStray`);
  in `DasmRun.PendingReferenceLinks` it leads to offset 0.
* A pattern without special characters is searched for as it is.  That agrees with the matcher on every subject exactly
  when the pattern holds neither `)` nor a zero byte (`LuaSearch.PlainIsPatternExactly`).
* Bytes behind a dump are no error to the bytecode reader unless it has taken some of them.  It has taken none exactly when
  a piece ends with the dump and, right before the terminating zero, none does (`BcPieces.Clean` has the exact condition,
  also for a terminator of several bytes): with the zero still to come, the reader asks for five bytes.
  `BcReader.TwoCuts` reads one input cut in two ways, with and without the error.
* The register shuffle gives up exactly when values of one kind of register form a cycle and no spare register of that
  kind exists (`RegShuffle.Shuffler.Shuffle`).

## Model

| member | source | states |
|---|---|---|
| `DasmCode.GapShrinks` | LuaJIT-2.0.4/dynasm/dasm_x86.h:298-341 | between any two commands the final distance is at most the one pass 1 estimated, and never negative |
| `DasmCode.ShortBranchInRange` | LuaJIT-2.0.4/dynasm/dasm_x86.h:303-323 | a branch chosen as short has a final displacement in [-128, 127], although what follows shrinks after the choice |
| `DasmCode.BackwardShortExactly` | LuaJIT-2.0.4/dynasm/dasm_x86.h:314-319 | a backward branch is short if and only if a byte reaches its label |
| `DasmCode.ForwardShortExactly` | LuaJIT-2.0.4/dynasm/dasm_x86.h:310-319 | a forward branch is short if and only if the estimate of the bytes in between is at most 127; a label within reach is missed exactly when the estimate exceeds 127 and the final distance does not |
| `DasmCode.ForwardChoiceIsConservative` | LuaJIT-2.0.4/dynasm/dasm_x86.h:310-319 | a concrete program whose forward branch stays long although a byte would reach |
| `DasmCode.PadAligns` | LuaJIT-2.0.4/dynasm/dasm_x86.h:331-331 | after the padding of pass 2 the offset is a multiple of the alignment, with at most mask bytes |
| `DasmCode.CodeLength` | LuaJIT-2.0.4/dynasm/dasm_x86.h:367-438 | the bytes pass 3 has written when it reaches any command are as many as pass 2 reckoned |
| `DasmCode.PrefixStays` | LuaJIT-2.0.4/dynasm/dasm_x86.h:398-405 | patching opcodes never changes what was written before a command that does not follow a literal byte |
| `DasmCode.LiteralStays` | LuaJIT-2.0.4/dynasm/dasm_x86.h:398-405 | a literal byte survives unless it is the opcode of a branch that was shrunk |
| `DasmCode.ShortOpcode` | LuaJIT-2.0.4/dynasm/dasm_x86.h:402-404 | in front of a short displacement stands the short form of the opcode |
| `DasmCode.BranchLands` | LuaJIT-2.0.4/dynasm/dasm_x86.h:398-405 | the end of a branch to a label plus its signed displacement is the final offset of the label |
| `DasmCode.CommandBytes` | LuaJIT-2.0.4/dynasm/dasm_x86.h:379-430 | the bytes of every other command stand between its two offsets in the final code |
| `DasmLabels.SlotShows` | LuaJIT-2.0.4/dynasm/dasm_x86.h:213-227 | a label slot is negative just when a definition is visible: recorded since the last step check, if the label is local, and with no forward reference to the label since |
| `DasmLabels.SlotUnresolved` | LuaJIT-2.0.4/dynasm/dasm_x86.h:217-244 | a label slot is positive just when some reference to the label has no definition |
| `DasmLabels.EarlierWaits` | LuaJIT-2.0.4/dynasm/dasm_x86.h:213-231 | what a waiting local reference is linked to is an earlier reference to the same label that waits too |
| `DasmLabels.AddResolved` | LuaJIT-2.0.4/dynasm/dasm_x86.h:217-227 | a reference to a defined label is stored at once, and chains still hold exactly the pending references |
| `DasmLabels.AddPending` | LuaJIT-2.0.4/dynasm/dasm_x86.h:213-231 | an unresolved reference becomes the head of its label's acyclic chain |
| `DasmLabels.AddDefinition` | LuaJIT-2.0.4/dynasm/dasm_x86.h:237-244 | a definition resolves exactly the references that wait for it: forward local ones get the next definition, others the most recent or next |
| `DasmLabels.AddReset` | LuaJIT-2.0.4/dynasm/dasm_x86.h:455-469 | the step check forgets local labels and nothing else |
| `DasmLabels.AllRefsFinal` | LuaJIT-2.0.4/dynasm/dasm_x86.h:272-289 | before the sweep every reference holds its definition or, without one, the marker -idx of a global or the chain link of a local label |
| `DasmLabels.UndefinedEverywhere` | LuaJIT-2.0.4/dynasm/dasm_x86.h:272-289 | a global so marked is defined nowhere in the unit |
| `DasmOutput.WriteLE` | LuaJIT-2.0.4/dynasm/dasm_x86.h:350-357 | the little-endian bytes of a number, in place |
| `DasmOutput.WritePad` | LuaJIT-2.0.4/dynasm/dasm_x86.h:421-424 | nops up to the next multiple of the alignment |
| `DasmOutput.WriteBranch` | LuaJIT-2.0.4/dynasm/dasm_x86.h:398-405 | a branch with its opcode patched in the buffer |
| `DasmEncoder.Dasm.constructor` | LuaJIT-2.0.4/dynasm/dasm_x86.h:84-151 | a fresh encoder with empty sections and unused labels |
| `DasmActions.DecodeExactly` | LuaJIT-2.0.4/dynasm/dasm_x86.h:187-255 | the action list begins with an action if and only if it begins with the bytes written for that action |
| `DasmActions.RecordMeans` | LuaJIT-2.0.4/dynasm/dasm_x86.h:167-262 | item j of a put is the action behind those of the earlier items, with the argument behind theirs; only the last one ends the put |
| `DasmEncoder.Dasm.Put` | LuaJIT-2.0.4/dynasm/dasm_x86.h:167-262 | the status is that of the first item refused after those before it, if any; otherwise exactly the items the action list prescribes and their label events are recorded, and the section may change; the label and buffer invariant holds |
| `DasmEncoder.CheckMeans` | LuaJIT-2.0.4/dynasm/dasm_x86.h:152-166 | a put succeeds if and only if no item is refused: none out of range, and no backward local reference without a visible definition |
| `DasmEncoder.Dasm.PutRef` | LuaJIT-2.0.4/dynasm/dasm_x86.h:213-236 | a reference is recorded if and only if it is in range and, when it is a backward local one, a definition is visible |
| `DasmEncoder.Dasm.CheckStep` | LuaJIT-2.0.4/dynasm/dasm_x86.h:455-469 | the status names the first local label that is referred to and not defined, or the wrong section; else local labels are forgotten |
| `DasmEncoder.Dasm.Link` | LuaJIT-2.0.4/dynasm/dasm_x86.h:266-346 | the status names the first pc label that is referred to and never defined; without one every label cell holds its final offset, every branch its choice, and the size is the final one, whatever local references still wait |
| `DasmEncoder.Dasm.Encode` | LuaJIT-2.0.4/dynasm/dasm_x86.h:360-439 | never a phase error; the buffer holds the code of the linked program; globals get their addresses; each recorded item is in the code as the laws over items and bytes say (`DasmBytes.AllItemBytes`, `AllRefBytes`) |
| `DasmEncoder.Dasm.ItemEncodes` | LuaJIT-2.0.4/dynasm/dasm_x86.h:378-430 | for every item but a reference, what stands at its place: immediates read back as the argument, space filled, padding up to the alignment, a literal its byte unless it is the opcode of a shortened branch |
| `DasmEncoder.Dasm.LiteralBytes` | LuaJIT-2.0.4/dynasm/dasm_x86.h:427-428 | a literal that is not the opcode, or its prefix, of a branch made short is what the action list says |
| `DasmEncoder.Dasm.RefEncodes` | LuaJIT-2.0.4/dynasm/dasm_x86.h:395-412 | for every reference, what stands at its place: the address of its definition, or of a global the unit does not define |
| `DasmEncoder.Dasm.AddressBytes` | LuaJIT-2.0.4/dynasm/dasm_x86.h:406-412 | an absolute reference holds base plus the place at which pass 3 reaches its definition |
| `DasmEncoder.Dasm.OutsideBytes` | LuaJIT-2.0.4/dynasm/dasm_x86.h:395-407 | a reference to a global that the unit does not define holds its address, or the distance to it |
| `DasmEncoder.Dasm.ShortBytes` | LuaJIT-2.0.4/dynasm/dasm_x86.h:398-405 | right before the displacement of a branch made short stands its one-byte opcode |
| `DasmBytes.UnsignedMod` | LuaJIT-2.0.4/dynasm/dasm_x86.h:350-357 | little-endian bytes read back as the number, modulo their width |
| `DasmEncoder.Dasm.GetPcLabel` | LuaJIT-2.0.4/dynasm/dasm_x86.h:442-451 | after linking the place at which pass 3 reaches the latest definition of the label, before that its estimate; -1 exactly when the label is referred to and not defined, -2 exactly when nothing mentions it or it is out of range |
| `DasmEncoder.Dasm.BranchReachesLabel` | LuaJIT-2.0.4/dynasm/dasm_x86.h:398-405 | the machine code of a relative reference that the history resolves leads to the place where pass 3 reaches that definition |
| `DasmEncoder.Dasm.WaitingIsStray` | LuaJIT-2.0.4/dynasm/dasm_x86.h:303-323 | a local reference without a definition is encoded for what its chain link holds, and the link is no place of a label |
| `DasmEncoder.Dasm.LabelOffsetIsPosition` | LuaJIT-2.0.4/dynasm/dasm_x86.h:329-330 | a label's offset is the number of bytes written when pass 3 reaches it |
| `DasmRun.LinkedBranchesLand` | LuaJIT-2.0.4/dynasm/dasm_x86.h:266-439 | all resolved relative references of a linked unit, across sections, lead to their definitions |
| `DasmRun.RunSteps` | LuaJIT-2.0.4/dynasm/dasm_x86.h:167-262 | every sequence of puts and step checks leaves the logs, the history and the section that its replay has, or stops with the same status |
| `DasmRun.StoppedBecause` | LuaJIT-2.0.4/dynasm/dasm_x86.h:167-262 | a run stops only at a put with an item that is refused after those before it, or at a step check that finds a waiting local reference or the wrong section, with the status that says so |
| `DasmRun.CheckedRunSettles` | LuaJIT-2.0.4/dynasm/dasm_x86.h:455-469 | after a step check that passes no local reference waits |
| `DasmRun.Assemble` | LuaJIT-2.0.4/dynasm/dasm_x86.h:360-439 | whole runs: there is code if and only if no step stops the run and no pc label stays undefined; it is that of the items and history of the run, every resolved branch lands, immediates read back as their arguments, literals and space stand as listed, absolute references hold the address of their definition |
| `DasmRun.ForwardHidesDefinition` | LuaJIT-2.0.4/dynasm/dasm_x86.h:216-217 | label 1, a forward and then a backward reference to it: the put is refused although the definition precedes |
| `DasmRun.PendingReferenceLinks` | LuaJIT-2.0.4/dynasm/dasm_x86.h:266-346 | a jump to a forward local label that never comes: the step check would report it, but the unit links and encodes, and the jump leads to offset 0 |
| `AllocTree.InsertCorrect` | LuaJIT-2.0.4/src/lj_alloc.c:647-684 | inserting keeps the trie and adds exactly the one chunk |
| `AllocTree.UnlinkCorrect` | LuaJIT-2.0.4/src/lj_alloc.c:686-730 | unlinking keeps the trie and removes exactly the one chunk, also when a far leaf or a ring sibling takes over |
| `AllocBins.IndexRange` | LuaJIT-2.0.4/src/lj_alloc.c:533-562 | the index names the bin whose size range holds the size; the bins partition the large sizes in order |
| `AllocBins.ShiftAtRoot` | LuaJIT-2.0.4/src/lj_alloc.c:550-553 | the shifted size presents the bits the trie of the bin resolves |
| `AllocBins.LaterBinLarger` | LuaJIT-2.0.4/src/lj_alloc.c:533-562 | sizes of a later bin are larger |
| `AllocSearch.WalkOn` | LuaJIT-2.0.4/src/lj_alloc.c:1056-1078 | one step of the walk along the bits of the request loses no fitting size: it is beaten by the candidate, still ahead, or in the deepest right subtree passed by |
| `AllocFind.WalkBin` | LuaJIT-2.0.4/src/lj_alloc.c:1056-1078 | following the child pointers, after the walk every fitting size of the bin is beaten by the candidate or by something in the deepest right subtree passed by |
| `AllocFind.Leftmost` | LuaJIT-2.0.4/src/lj_alloc.c:1086-1093 | the leftmost walk finds the smallest of a subtree |
| `AllocFind.FindFit` | LuaJIT-2.0.4/src/lj_alloc.c:1048-1093 | a smallest adequate chunk among all tree bins, or none is adequate |
| `AllocFind.ChooseLarge` | LuaJIT-2.0.4/src/lj_alloc.c:1048-1109 | nothing is chosen only if nothing fits or the designated victim fits at least as well as everything that does |
| `AllocFind.ChooseSmallest` | LuaJIT-2.0.4/src/lj_alloc.c:1112-1130 | the smallest chunk of all tree bins |
| `AllocSmall.SmallBin.Insert` | LuaJIT-2.0.4/src/lj_alloc.c:594-607 | a chunk becomes the first of the list, also when the header links are stale |
| `AllocSmall.SmallBin.Unlink` | LuaJIT-2.0.4/src/lj_alloc.c:609-620 | a chunk leaves the list; both its links lead to the same place if and only if it was the only one |
| `AllocSmall.SmallBin.UnlinkFirst` | LuaJIT-2.0.4/src/lj_alloc.c:622-630 | the first chunk leaves the list; its forward link is the header if and only if it was the only one |
| `AllocSmall.Bypass` | LuaJIT-2.0.4/src/lj_alloc.c:609-620 | in a list of two or more chunks the neighbours of a chunk differ, and linking them bypasses exactly that chunk |
| `AllocLinks.TreeBin.InsertLarge` | LuaJIT-2.0.4/src/lj_alloc.c:647-684 | the pointer code refines insertion into the trie, with parent links and rings, touching only chunks of the tree |
| `AllocLinks.TreeBin.LinkInTree` | LuaJIT-2.0.4/src/lj_alloc.c:660-682 | the walk along the bits of the size and the links at its end |
| `AllocLinks.TreeBin.CutFarLeaf` | LuaJIT-2.0.4/src/lj_alloc.c:695-705 | the descent preferring the upper child cuts off the far leaf |
| `AllocLinks.TreeBin.TakePlace` | LuaJIT-2.0.4/src/lj_alloc.c:717-728 | the replacement takes over parent and children |
| `AllocLinks.TreeBin.UnlinkLarge` | LuaJIT-2.0.4/src/lj_alloc.c:686-730 | the pointer code refines unlinking from the trie, for nodes, ring members, roots and inner nodes; the root is gone if and only if the tree is empty |
| `AllocLinks.RingLinked` | LuaJIT-2.0.4/src/lj_alloc.c:673-680 | a chunk joins the ring behind its head, all other links of the ring stay |
| `AllocLinks.RingUnlinked` | LuaJIT-2.0.4/src/lj_alloc.c:689-693 | a chunk leaves its ring; if it was the head its predecessor is the new one |
| `AllocLinks.CutRep` | LuaJIT-2.0.4/src/lj_alloc.c:695-705 | cutting the far leaf leaves the rest of the tree represented |
| `AllocLinks.Promoted` | LuaJIT-2.0.4/src/lj_alloc.c:717-728 | after the promotion the replacement with its ring stands over the old node's subtrees |
| `AllocLinks.ChildDone` | LuaJIT-2.0.4/src/lj_alloc.c:706-729 | replacing an inner node gives the tree without the chunk |
| `AllocTags.OccupyOk` | LuaJIT-2.0.4/src/lj_alloc.c:583-585 | taking a whole free chunk keeps all tags in agreement |
| `AllocTags.SplitFreeOk` | LuaJIT-2.0.4/src/lj_alloc.c:588-589 | so does splitting a free chunk |
| `AllocTags.SplitTopOk` | LuaJIT-2.0.4/src/lj_alloc.c:1251-1258 | and splitting top |
| `AllocTags.SplitUsedOk` | LuaJIT-2.0.4/src/lj_alloc.c:578-580 | and cutting a chunk in use in two |
| `AllocTags.GrowIntoTopOk` | LuaJIT-2.0.4/src/lj_alloc.c:1358-1367 | and a chunk growing into top |
| `AllocTags.MergeRunOk` | LuaJIT-2.0.4/src/lj_alloc.c:392-397 | and merging neighbours into one free chunk |
| `AllocTags.MergeTopOk` | LuaJIT-2.0.4/src/lj_alloc.c:1292-1299 | and merging into top |
| `AllocTags.AddTwoOk` | LuaJIT-2.0.4/src/lj_alloc.c:820-828 | and new chunks in front of a segment |
| `AllocTags.ExtendTopOk` | LuaJIT-2.0.4/src/lj_alloc.c:930-932 | and a larger top |
| `AllocTags.NewTopOk` | LuaJIT-2.0.4/src/lj_alloc.c:853-897 | and a new segment with the old one sealed by a record and fence posts |
| `AllocTags.AddDirectOk` | LuaJIT-2.0.4/src/lj_alloc.c:744-761 | and a directly mapped chunk |
| `AllocTags.RemoveDirectOk` | LuaJIT-2.0.4/src/lj_alloc.c:1272-1276 | and its unmapping |
| `AllocPool.InsertLargePool` | LuaJIT-2.0.4/src/lj_alloc.c:647-684 | the bins' contents grow by exactly the chunk |
| `AllocPool.UnlinkLargePool` | LuaJIT-2.0.4/src/lj_alloc.c:686-730 | and shrink by exactly the chunk |
| `AllocPool.Locate` | LuaJIT-2.0.4/src/lj_alloc.c:734-740 | a binned chunk is in the bin its size names |
| `AllocInv.LiveBlocksDisjoint` | LuaJIT-2.0.4/src/lj_alloc.c:1180-1332 | live blocks are aligned, hold at least the minimum and do not overlap |
| `AllocInv.SegmentTiled` | LuaJIT-2.0.4/src/lj_alloc.c:853-897 | chunks tile each segment: every address from its base up to its first fence post lies in a chunk |
| `AllocInv.NoAdjacentFree` | LuaJIT-2.0.4/src/lj_alloc.c:1263-1332 | behind a free chunk lies one in use |
| `AllocInv.FreshHoldsNothing` | LuaJIT-2.0.4/src/lj_alloc.c:901-958 | a range off all mappings holds no tags |
| `AllocSteps.OccupyHeap` | LuaJIT-2.0.4/src/lj_alloc.c:1198-1203 | the whole invariant after a chunk is handed out |
| `AllocSteps.SplitHeap` | LuaJIT-2.0.4/src/lj_alloc.c:1215-1218 | and after a split, with the remainder still to be binned |
| `AllocSteps.MergeHeap` | LuaJIT-2.0.4/src/lj_alloc.c:1263-1332 | and after a block is merged with its free neighbours |
| `AllocSteps.NewTopHeap` | LuaJIT-2.0.4/src/lj_alloc.c:853-897 | and after top moves to a new segment |
| `AllocSteps.InsertHeap` | LuaJIT-2.0.4/src/lj_alloc.c:734-736 | binning a loose free chunk restores "free chunks other than dv and top are exactly those in the bins", with the bitmaps |
| `AllocSteps.UnlinkHeap` | LuaJIT-2.0.4/src/lj_alloc.c:738-740 | unbinning makes exactly that chunk loose |
| `AllocBinned.LooseIsUnbinned` | LuaJIT-2.0.4/src/lj_alloc.c:734-736 | a chunk that is being worked on is not in the bin it would go to |
| `AllocBinned.FreeIsBinned` | LuaJIT-2.0.4/src/lj_alloc.c:738-740 | any other free chunk but dv and top is where its size leads |
| `AllocHeap.Allocator.constructor` | LuaJIT-2.0.4/src/lj_alloc.c:1144-1166 | the first heap is well formed and has no live block |
| `AllocHeap.Allocator.Malloc` | LuaJIT-2.0.4/src/lj_alloc.c:1180-1261 | a new block with room for the request, all other blocks and their words untouched, the heap well formed; it is the first chunk of the exact small bin or the next one, else a smallest sufficient chunk or the designated victim, then top, then fresh memory, each only when those before cannot serve (`AllocServe.Served`, `FromSystem`); NULL only when no free chunk can serve and the system refuses, and then nothing has changed |
| `AllocHeap.Allocator.Free` | LuaJIT-2.0.4/src/lj_alloc.c:1263-1332 | exactly the block is given back; the free chunk that results reaches from a free neighbour before it to one behind it, and is top, the designated victim or binned as the source has it (`AllocServe.Returned`); the heap well formed, other blocks untouched |
| `AllocHeap.Allocator.FreeAround` | LuaJIT-2.0.4/src/lj_alloc.c:1291-1330 | the block, merged with a free chunk before it, is merged with top, the victim or a free chunk behind it |
| `AllocHeap.Allocator.Realloc` | LuaJIT-2.0.4/src/lj_alloc.c:1334-1382 | the block stays where it is if and only if it can be kept, cut or grown into top (`CanStay`), and then has the size that comes of it; else it is moved to what malloc serves; NULL only for a request that is too large, or when it can neither stay nor be served and the system refuses; its words hold what they held as far as there is room, and so does every word of all other blocks; after a failure nothing has changed |
| `AllocHeap.Allocator.CopyBlock` | LuaJIT-2.0.4/src/lj_alloc.c:1375-1377 | the words of a block are copied and no word of any other block changes |
| `AllocHeap.MoveKept` | LuaJIT-2.0.4/src/lj_alloc.c:1373-1380 | taking a new block, copying and giving the old one back keeps the contents and all other blocks |
| `AllocHeap.Allocator.MallocSmall` | LuaJIT-2.0.4/src/lj_alloc.c:1185-1229 | small requests: the exact bin or the next one if marked, else a least fit of the bins; gives up only if dv serves or no bin fits |
| `AllocHeap.Allocator.TakeExact` | LuaJIT-2.0.4/src/lj_alloc.c:1192-1201 | the first chunk of the exact small bin or the next one is handed out whole |
| `AllocHeap.Allocator.TakeNext` | LuaJIT-2.0.4/src/lj_alloc.c:1203-1222 | the first chunk of the next marked small bin is cut; it is a least fit of all bins |
| `AllocServe.SplitBinLeast` | LuaJIT-2.0.4/src/lj_alloc.c:1203-1211 | the first chunk of the first marked bin behind the exact ones is a least fit of all bins |
| `AllocServe.TreeLeast` | LuaJIT-2.0.4/src/lj_alloc.c:1048-1130 | where no small bin can serve, a best fit of the trees is a least fit of all bins |
| `AllocServe.LargeFits` | LuaJIT-2.0.4/src/lj_alloc.c:1048-1109 | every chunk that fits a large request is in a tree |
| `AllocHeap.Allocator.TreeMallocSmall` | LuaJIT-2.0.4/src/lj_alloc.c:1112-1140 | the chunk is a least fit of all bins, and the rest becomes dv |
| `AllocHeap.Allocator.TreeMallocLarge` | LuaJIT-2.0.4/src/lj_alloc.c:1048-1109 | the chunk is a least fit of all bins and better than dv, the rest binned; gives up only if nothing fits or dv is as good |
| `AllocHeap.Allocator.UseDv` | LuaJIT-2.0.4/src/lj_alloc.c:1235-1250 | the block starts at the designated victim, which keeps the rest or is exhausted |
| `AllocHeap.Allocator.AllocSys` | LuaJIT-2.0.4/src/lj_alloc.c:901-958 | direct mapping, else fresh memory that makes top larger if it lies behind its segment, joins a segment in front of which it lies, or becomes a segment (`Placed`); fails only if the system does |
| `AllocHeap.TopsEnd` | LuaJIT-2.0.4/src/lj_alloc.c:927-935 | the segment that ends behind top is the one that holds it, so fresh memory there belongs to top |
| `AllocHeap.Allocator.PrependAlloc` | LuaJIT-2.0.4/src/lj_alloc.c:820-850 | a region in front of a segment serves the request and its rest joins the first chunk |
| `AllocHeap.Allocator.AddSegment` | LuaJIT-2.0.4/src/lj_alloc.c:853-897 | a new segment becomes top, the old top is binned |
| `AllocHeap.Allocator.ReplaceDv` | LuaJIT-2.0.4/src/lj_alloc.c:634-642 | the old victim is binned |
| `AllocHeap.Allocator.InsertChunk` | LuaJIT-2.0.4/src/lj_alloc.c:594-607 | a chunk is put at the front of its small bin or into its trie, in memory, with the bitmap |
| `AllocHeap.Allocator.UnlinkChunk` | LuaJIT-2.0.4/src/lj_alloc.c:734-740 | a chunk is taken out of its list or trie, in memory, with the bitmap |
| `AllocHeap.Allocator.UnlinkSmallChunk` | LuaJIT-2.0.4/src/lj_alloc.c:609-620 | the bit that the comparison of the two links clears is the one of a bin that has become empty |
| `AllocHeap.Allocator.UnlinkTreeChunk` | LuaJIT-2.0.4/src/lj_alloc.c:706-716 | the bit that the missing root clears is the one of a bin that has become empty |
| `AllocHeap.Allocator.UnlinkFirstSmall` | LuaJIT-2.0.4/src/lj_alloc.c:622-630 | the first chunk of a marked small bin is taken out and is loose; its size is that of the bin |
| `AllocHeap.Allocator.Store` | LuaJIT-2.0.4/src/lj_alloc.c:337-339 | whatever the owner of a block writes into it leaves the heap well formed |
| `AllocHeap.BlockUntouched` | LuaJIT-2.0.4/src/lj_alloc.c:1180-1332 | malloc and free write no word of a live block |
| `AllocHeap.SegmentSizeFits` | LuaJIT-2.0.4/src/lj_alloc.c:913-923 | a segment size that did not wrap around leaves room for request, foot and one byte more |
| `LuaPattern.BestIsFirst` | LuaJIT-2.0.4/src/lib_string.c:302-451 | the search returns the outcome of the first choice of repetition counts that does not fail |
| `LuaPattern.FirstIsUnique` | LuaJIT-2.0.4/src/lib_string.c:302-329 | priority determines the outcome |
| `LuaPattern.DescendIsFirst` | LuaJIT-2.0.4/src/lib_string.c:302-315 | greedy repetition: the largest number that does not fail |
| `LuaPattern.AscendIsFirst` | LuaJIT-2.0.4/src/lib_string.c:317-329 | lazy repetition: the smallest |
| `LuaPattern.ToClose` | LuaJIT-2.0.4/src/lib_string.c:196-203 | the innermost unfinished capture |
| `LuaPattern.ItemAt` | LuaJIT-2.0.4/src/lib_string.c:373-449 | every item but the last ends inside the pattern, behind its start |
| `LuaPattern.Longest` | LuaJIT-2.0.4/src/lib_string.c:305-307 | the longest run of accepted characters |
| `LuaPattern.BalanceStepMeans` | LuaJIT-2.0.4/src/lib_string.c:281-300 | %bxy matches up to k if and only if closings make up for openings in front of k and nowhere before; otherwise it fails |
| `LuaPattern.ClassesMean` | LuaJIT-2.0.4/src/lib_string.c:226-244 | how the character classes are made up of each other, and that upper-case letters are the complements |
| `LuaPattern.SetMeans` | LuaJIT-2.0.4/src/lib_string.c:246-267 | a set contains a byte if and only if one of the classes, ranges and characters it is written with does |
| `LuaPattern.SetEndMeans` | LuaJIT-2.0.4/src/lib_string.c:205-224 | a set ends at the bracket behind what it is written with |
| `LuaPattern.FrontierMeans` | LuaJIT-2.0.4/src/lib_string.c:390-401 | %f matches nothing, exactly between a byte that is not in the set and one that is |
| `LuaMatcher.MatchState.DoMatch` | LuaJIT-2.0.4/src/lib_string.c:368-451 | returns what the search specifies; after a failure level, depth and captures are as on entry, after a success they are those of the match |
| `LuaMatcher.MatchState.StartCapture` | LuaJIT-2.0.4/src/lib_string.c:331-343 | a capture is opened and undone on failure |
| `LuaMatcher.MatchState.EndCapture` | LuaJIT-2.0.4/src/lib_string.c:345-354 | a capture is closed and reopened on failure |
| `LuaMatcher.MatchState.MaxExpand` | LuaJIT-2.0.4/src/lib_string.c:302-315 | greedy repetition over the capture stack |
| `LuaMatcher.MatchState.MinExpand` | LuaJIT-2.0.4/src/lib_string.c:317-329 | lazy repetition over the capture stack |
| `LuaMatcher.MatchState.MatchBalance` | LuaJIT-2.0.4/src/lib_string.c:281-300 | matches up to the shortest balanced stretch, by the counts of opening and closing bytes, if there is one |
| `LuaMatcher.MatchState.MatchCapture` | LuaJIT-2.0.4/src/lib_string.c:356-366 | a back reference matches exactly the captured bytes |
| `LuaMatcher.MatchState.CaptureToClose` | LuaJIT-2.0.4/src/lib_string.c:196-203 | the innermost unfinished capture, or none |
| `LuaMatcher.CallMeans` | LuaJIT-2.0.4/src/lib_string.c:368-451 | unless it throws, a match is found if and only if some choice gives one, and then the one of highest priority |
| `LuaSearch.MemFind` | LuaJIT-2.0.4/src/lib_string.c:453-475 | the first occurrence, or there is none |
| `LuaSearch.FindPattern` | LuaJIT-2.0.4/src/lib_string.c:534-556 | the leftmost start that does not fail decides; an anchor allows only the first; a match that leaves a capture open is an error, any other pushes its captures or, for string.match, the whole match |
| `LuaSearch.AnchorTies` | LuaJIT-2.0.4/src/lib_string.c:534-556 | with a leading ^, which is no part of the pattern, the outcome at the start position is the answer |
| `LuaSearch.FreeSearch` | LuaJIT-2.0.4/src/lib_string.c:534-556 | without one, a start that does not fail bounds the answer from the right |
| `LuaSearch.PushCaptures` | LuaJIT-2.0.4/src/lib_string.c:477-502 | an error exactly when a capture is unfinished; otherwise the text or position of each |
| `LuaSearch.MatchFrom` | LuaJIT-2.0.4/src/lib_string.c:566-569 | string.match from the start position on |
| `LuaSearch.FindPlain` | LuaJIT-2.0.4/src/lib_string.c:527-533 | the leftmost occurrence from the start on |
| `LuaSearch.Find` | LuaJIT-2.0.4/src/lib_string.c:511-559 | plain search exactly when asked for or when there are no special characters |
| `LuaSearch.StartAt` | LuaJIT-2.0.4/src/lib_string.c:504-526 | positive positions count from 1, negative ones from the end, both cut to the subject; 0 is the start |
| `LuaSearch.PlainIsPattern` | LuaJIT-2.0.4/src/lib_string.c:527-556 | for patterns without special characters, `)` or zero both ways give the same answer for every subject and start |
| `LuaSearch.PlainIsPatternExactly` | LuaJIT-2.0.4/src/lib_string.c:527-556 | for patterns that are searched for as they are, both ways agree on all subjects and starts if and only if the pattern holds neither `)` nor zero |
| `LuaSearch.ParenthesisDiffers` | LuaJIT-2.0.4/src/lib_string.c:186-186 | with `)` as the first of them, the plain search finds the pattern in itself and the matcher raises an error |
| `LuaSearch.ZeroDiffers` | LuaJIT-2.0.4/src/lib_string.c:527-529 | with a zero byte as the first of them, the matcher finds what stands before it, and the plain search does not |
| `LuaSearch.OpenCaptureRaises` | LuaJIT-2.0.4/src/lib_string.c:486-486 | a pattern that only opens a capture matches, and pushing the capture is an error |
| `LuaGsub.AddS` | LuaJIT-2.0.4/src/lib_string.c:605-624 | the replacement text with captures expanded, or the capture error |
| `LuaGsub.ExpandMeans` | LuaJIT-2.0.4/src/lib_string.c:605-624 | a template made of text, %0, %1 to %9 and other escapes gives what its parts give, in their order; the first that fails decides |
| `LuaGsub.DecimalMeans` | LuaJIT-2.0.4/src/lib_string.c:487-488 | a position is inserted in decimal digits without leading zeros |
| `LuaGsub.Gsub` | LuaJIT-2.0.4/src/lib_string.c:658-697 | the text is the subject with each match of the run replaced and everything else copied; the count is their number, and the run is the only one |
| `LuaGsub.SubstitutionMeans` | LuaJIT-2.0.4/src/lib_string.c:658-697 | there is a run of matches, each the first from where the search goes on, up to the limit, and it decides text, count and error |
| `LuaGsub.SubstituteMeans` | LuaJIT-2.0.4/src/lib_string.c:658-697 | the same from any position on |
| `LuaGsub.AddValue` | LuaJIT-2.0.4/src/lib_string.c:626-656 | the text a match is replaced by: the expanded template, what the function or table gives for the captures, the match itself for nil or false, or an error |
| `LuaGsub.AllValuesAre` | LuaJIT-2.0.4/src/lib_string.c:494-502 | the values a replacement function is asked with are those pushed for the captures, and there are none exactly when a capture is unfinished |
| `LuaGsub.PiecesPartition` | LuaJIT-2.0.4/src/lib_string.c:676-693 | from any position, when the replacement gives each match back, matched pieces and copied characters partition the rest of the subject, with a bound on the count |
| `LuaGsub.WholeIsIdentity` | LuaJIT-2.0.4/src/lib_string.c:658-697 | with "%0" the subject comes back unchanged, with at most limit and length + 1 substitutions |
| `LuaGsub.RefusalIsIdentity` | LuaJIT-2.0.4/src/lib_string.c:649-651 | with a function that always returns nil or false the subject comes back unchanged |
| `LuaQuote.AddQuoted` | LuaJIT-2.0.4/src/lib_string.c:711-737 | the escapes, with as few digits as the next byte allows |
| `LuaQuote.QuoteRoundTrip` | LuaJIT-2.0.4/src/lib_string.c:711-737 | the scanner reads the literal back for every byte string, whatever follows |
| `LuaQuote.EscapeIsShortest` | LuaJIT-2.0.4/src/lib_string.c:711-737 | no decimal escape of a control character that the next byte does not go on with is shorter; all else is written as it is or behind a backslash |
| `LuaQuote.EscapesAreClean` | LuaJIT-2.0.4/src/lib_string.c:711-737 | no control character is left in the literal but newlines, each behind a backslash |
| `BcNumbers.UlebRoundTrip` | LuaJIT-2.0.4/src/lj_bcread.c:136-151 | a 32-bit number is read back in any following context |
| `BcNumbers.Uleb33RoundTrip` | LuaJIT-2.0.4/src/lj_bcread.c:154-169 | so is the 33-bit form, with its low bit |
| `BcNumbers.PatchedIsPlain` | LuaJIT-2.0.4/src/lj_bcwrite.c:223-235 | patching the last byte gives the ULEB128 of the 33-bit value |
| `BcNumbers.PrefixWidthExact` | LuaJIT-2.0.4/src/lj_bcwrite.c:324-328 | the precomputed prefix width is the encoded length, at most five |
| `BcFormat.ValRoundTrip` | LuaJIT-2.0.4/src/lj_bcread.c:201-217 | a key or value of a template table is read back |
| `BcFormat.TableRoundTrip` | LuaJIT-2.0.4/src/lj_bcread.c:220-241 | a template table is read back as a map, entries coming in reverse slot order |
| `BcFormat.LoadedHash` | LuaJIT-2.0.4/src/lj_bcwrite.c:138-147 | the map has exactly the used slots |
| `BcProto.NumsRoundTrip` | LuaJIT-2.0.4/src/lj_bcread.c:283-297 | number constants are read back |
| `BcProto.ConstsRoundTrip` | LuaJIT-2.0.4/src/lj_bcread.c:244-280 | constants are read back, children being popped in the order needed, and the stack is left as below them |
| `BcProto.BodyRoundTrip` | LuaJIT-2.0.4/src/lj_bcread.c:329-420 | a prototype is rebuilt from its body and the stack |
| `BcProto.TreeRoundTrip` | LuaJIT-2.0.4/src/lj_bcwrite.c:272-333 | reading back a tree pushes exactly its root, whatever is below and whatever follows |
| `BcProto.HeaderRoundTrip` | LuaJIT-2.0.4/src/lj_bcread.c:423-452 | the header is read back |
| `BcProto.DumpRoundTrip` | LuaJIT-2.0.4/src/lj_bcread.c:455-475 | a whole dump is read back with exactly the root on the stack, whatever follows the dump, which is left over |
| `BcGrammar.DumpExactly` | LuaJIT-2.0.4/src/lj_bcread.c:455-475 | what is read is exactly what consists of a header, the code of one tree of prototypes and a length of zero, as a relation over bytes |
| `BcGrammar.RefusedExactly` | LuaJIT-2.0.4/src/lj_bcread.c:455-475 | what is no dump is of a wrong format exactly for other magic bytes or unknown flags, and broken otherwise |
| `BcGrammar.HeaderExactly` | LuaJIT-2.0.4/src/lj_bcread.c:423-452 | a header is accepted if and only if it is the magic bytes, known flags and the name |
| `BcGrammar.ForeignExactly` | LuaJIT-2.0.4/src/lj_bcread.c:427-431 | the format is found wrong exactly for other magic bytes or unknown flags |
| `BcGrammar.TreesFind` | LuaJIT-2.0.4/src/lj_bcread.c:463-470 | what has been read up to a length of zero is the code of the trees on the stack |
| `BcGrammar.TreeReads` | LuaJIT-2.0.4/src/lj_bcread.c:463-470 | the code of a tree pushes exactly its root, whatever lies below and whatever follows |
| `BcGrammar.BodyFinds` | LuaJIT-2.0.4/src/lj_bcread.c:329-420 | a body that is read is used up by the code of the prototype, whose children were on top of the stack |
| `BcGrammar.BodyReads` | LuaJIT-2.0.4/src/lj_bcread.c:329-420 | the code of a prototype is read when its children are on top of the stack |
| `BcGrammar.OneReading` | LuaJIT-2.0.4/src/lj_bcread.c:455-475 | no bytes are two dumps |
| `BcGrammar.OtherVersion` | LuaJIT-2.0.4/src/lj_bcread.c:427-429 | a written dump with one of its three magic bytes changed is refused as of a wrong format |
| `BcGrammar.WrittenDump` | LuaJIT-2.0.4/src/lj_bcwrite.c:336-395 | a written dump is the code of what it is loaded as, under a header with the flags for stripping and for the foreign function interface |
| `BcGrammar.WrittenNumbers` | LuaJIT-2.0.4/src/lj_bcwrite.c:80-109 | a number is written as an integer exactly when it is equal to one and is no key |
| `BcReader.Reader.Fill` | LuaJIT-2.0.4/src/lj_bcread.c:57-94 | refilling ends, keeps the unread bytes a contiguous suffix and the stream as it was; it fails exactly for too long a request or the end of input |
| `BcReader.Reader.Need` | LuaJIT-2.0.4/src/lj_bcread.c:97-101 | enough bytes are there, or the stream is too short |
| `BcReader.Reader.Want` | LuaJIT-2.0.4/src/lj_bcread.c:104-108 | as many bytes as there are; the end of input is an error only the second time |
| `BcReader.Reader.GetUleb` | LuaJIT-2.0.4/src/lj_bcread.c:136-151 | the loop computes the number |
| `BcReader.Reader.GetUleb33` | LuaJIT-2.0.4/src/lj_bcread.c:154-169 | so does the one for 33 bits |
| `BcReader.Reader.GetVal` | LuaJIT-2.0.4/src/lj_bcread.c:201-217 | a key or value |
| `BcReader.Reader.GetTable` | LuaJIT-2.0.4/src/lj_bcread.c:220-241 | a template table |
| `BcReader.Reader.GetConsts` | LuaJIT-2.0.4/src/lj_bcread.c:244-280 | constants, popping children; an empty stack is an error |
| `BcReader.Reader.GetNums` | LuaJIT-2.0.4/src/lj_bcread.c:283-297 | number constants |
| `BcReader.Reader.GetBody` | LuaJIT-2.0.4/src/lj_bcread.c:348-419 | a prototype; the length must be used up exactly |
| `BcReader.Reader.NextProto` | LuaJIT-2.0.4/src/lj_bcread.c:338-346 | one round of the prototype loop as a function of the stream |
| `BcReader.Reader.GetHeader` | LuaJIT-2.0.4/src/lj_bcread.c:423-452 | the header as a function of the stream; accepted exactly if the stream begins with one, the wrong format exactly for other magic bytes or unknown flags |
| `BcPieces.CleanExactly` | LuaJIT-2.0.4/src/lj_bcread.c:338-346 | the pieces taken when the terminator has been read end with the dump if and only if nothing follows it, or a piece ends there and the reader has not asked for more |
| `BcReader.Reader.Read` | LuaJIT-2.0.4/src/lj_bcread.c:455-475 | read exactly if the stream is a dump, as a relation over its bytes, and the reader has taken nothing of what follows it; the wrong format exactly for other magic bytes or unknown flags, broken otherwise |
| `BcReader.TwoCuts` | LuaJIT-2.0.4/src/lj_bcread.c:338-346 | one input in two cuts: read without error, and with one because the terminating zero begins a piece |
| `BcReader.LoadDump` | LuaJIT-2.0.4/src/lj_bcread.c:455-475 | a written dump is rebuilt for every way to cut it into pieces, with anything behind it unless the reader has taken of that |
| `BcWriter.Writer.Need` | LuaJIT-2.0.4/src/lj_bcwrite.c:37-49 | room for the bytes asked for, with the contents kept |
| `BcWriter.Writer.PutUleb` | LuaJIT-2.0.4/src/lj_bcwrite.c:67-75 | exactly the encoding is appended, inside the buffer |
| `BcWriter.Writer.PutUleb33` | LuaJIT-2.0.4/src/lj_bcwrite.c:222-235 | the patched form, in the room of five bytes |
| `BcWriter.Writer.PutVal` | LuaJIT-2.0.4/src/lj_bcwrite.c:80-109 | a key or value stays in the room reserved for it |
| `BcWriter.Writer.PutTable` | LuaJIT-2.0.4/src/lj_bcwrite.c:112-148 | a template table: trimmed array part, used slots from the last down |
| `BcWriter.Writer.PutConsts` | LuaJIT-2.0.4/src/lj_bcwrite.c:151-203 | constants |
| `BcWriter.Writer.PutNums` | LuaJIT-2.0.4/src/lj_bcwrite.c:206-239 | number constants, ten bytes each being enough |
| `BcWriter.Writer.PutBody` | LuaJIT-2.0.4/src/lj_bcwrite.c:286-319 | the body, every write in reserved space |
| `BcWriter.Writer.PassBlock` | LuaJIT-2.0.4/src/lj_bcwrite.c:322-331 | the size fits exactly into the room in front of the body |
| `BcWriter.Writer.PutProto` | LuaJIT-2.0.4/src/lj_bcwrite.c:272-333 | the callback gets the tree, children first, or a prefix of it once it refuses |
| `BcWriter.Writer.Write` | LuaJIT-2.0.4/src/lj_bcwrite.c:336-395 | the callback gets the whole dump unless it refuses |
| `TableSort.AuxSort` | LuaJIT-2.0.4/src/lib_table.c:195-256 | under a strict weak order no error and a sorted range; under any comparison it ends, touches only the range and leaves a rearrangement, even when it raises; an error means that a scan has left its range (`OrderInvalid`); logarithmic recursion |
| `TableSort.OrderThree` | LuaJIT-2.0.4/src/lib_table.c:199-220 | first, middle and last element in order |
| `TableSort.Partition` | LuaJIT-2.0.4/src/lib_table.c:221-246 | the pivot ends with nothing greater before it and nothing less behind it |
| `TableSort.Sweep` | LuaJIT-2.0.4/src/lib_table.c:226-243 | the exchange loop ends with the scans crossed |
| `TableSort.ScanUp` | LuaJIT-2.0.4/src/lib_table.c:228-232 | a scan stops in the range, or, exactly when everything up to its end precedes the pivot, the order is invalid |
| `TableSort.ScanDown` | LuaJIT-2.0.4/src/lib_table.c:233-237 | so does the one from above |
| `TableSort.Round` | LuaJIT-2.0.4/src/lib_table.c:221-254 | one round sorts the smaller part and leaves a smaller problem, in order with everything around it |
| `TableSort.StrictWeakAsUsual` | LuaJIT-2.0.4/src/lib_table.c:179-192 | the usual axioms of a strict weak order are enough |
| `RegShuffle.Shuffler.Shuffle` | LuaJIT-2.0.4/src/lj_asm.c:1478-1512 | the code, run in reverse order of emission, performs the parallel copy; it gives up if and only if a cycle of one kind has no spare register |
| `RegShuffle.Shuffler.Coalesce` | LuaJIT-2.0.4/src/lj_asm.c:1483-1491 | a move from a free parent register; its target becomes free |
| `RegShuffle.Shuffler.Rename` | LuaJIT-2.0.4/src/lj_asm.c:617-638 | what was wanted in one register is wanted in another |
| `RegShuffle.Shuffler.BreakCycle` | LuaJIT-2.0.4/src/lj_asm.c:1497-1510 | succeeds exactly if there is a spare register |
| `RegShuffle.CoalesceFinishes` | LuaJIT-2.0.4/src/lj_asm.c:1483-1491 | a coalescing move preserves that the rest of the code finishes the copy |
| `RegShuffle.RenameFinishes` | LuaJIT-2.0.4/src/lj_asm.c:617-638 | so does a rename |
| `RefTable.References.Ref` | LuaJIT-2.0.4/src/lib_aux.c:258-278 | the reference returned is not live; it is the one given back last or the next new one |
| `RefTable.References.Unref` | LuaJIT-2.0.4/src/lib_aux.c:280-289 | a live reference goes to the head of the free list |
| `RefTable.OneBorder` | LuaJIT-2.0.4/src/lib_aux.c:272-275 | with an empty free list the table has one border, so length + 1 is fresh |

## Left out

- The rest of Node9 and of LuaJIT: start-up, libuv, the interpreter, the recorder and the code generators.
- DynASM: DISP, VREG, MARK, IMM_DB, IMM_WB, SETLABEL, REL_A and EXTERN actions; the other architectures, which add no new argument.
- DynASM: growth of section buffers and of the global label array; a section that outgrows its 24-bit index (`Put` excludes it); integers do not wrap.
- DynASM: DASM_CHECKS are on.
- DynASM action lists: taken as well formed (`Listing`): a shrinkable branch follows its opcode, alignments are powers of two, references have label arguments in range of their kind.
- AllocHeap.Allocator.Free: alloc_trim and release_unused_segments are as if the system refused to take memory back and nothing else happened; unmapping a direct chunk always succeeds.
- AllocHeap.Allocator.Malloc: for requests of 2^40 bytes and more the walk through the trees, which cannot find anything, is skipped; the word after a direct chunk's fence post is not modelled.
- AllocHeap.Allocator.Realloc: mremap is refused; contents are copied in whole words, so up to seven bytes behind the last one are not stated.
- Allocator: lj_alloc_destroy; heads, feet and the links of each bin are separate maps instead of one memory.
- Allocator: alignment offsets of mappings are zero, since mappings are page aligned; addresses stay below 2^31, as mapped by the source on 64-bit targets.
- LuaPattern: locale and embedded zeros in character classes beyond the source's own tables; the subject's terminating zero is modelled, its memory is not.
- LuaSearch: string.gmatch; the stack check of push_captures.
- LuaGsub.Gsub: a replacement function or table answers from its arguments and the number of substitutions so far; it raises no error, and metamethods are not modelled.
- Bytecode dumps: constants of the foreign function interface, dumps of the other byte order, unpatching of bytecode modified by the compiler; debug information is a block of bytes; the dual-number mode.
- BcFormat.ValRoundTrip: asks that a double which narrows to an integer is the double of that integer, which leaves out -0 as the source does.
- BcReader.Reader.Read: reading past the length of a prototype is an error at once; the source finds it when it compares lengths at the end, and does not check reads past the buffer.  Numbers of more than five bytes are errors; the source shifts by more than the width there.  Streams are at most as long as the memory limit.
- table.sort: comparison functions that raise errors or change the table; metamethods.
- RegShuffle.Shuffler.Shuffle: spilled values (handled before the shuffle), the renames recorded in the IR, machine code limits.  What is allocated besides the targets is taken as nothing, as at the head of a side trace.
- RefTable.References.Unref: references that are not live; tables with other contents.
