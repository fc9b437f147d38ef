# Page-replacement simulator: the policy engine

This project models the page-replacement policies of the Page Replacement
Simulator in Dafny. Each policy object owns a capacity (`frame_count`) and
a list of resident pages (`frames`, oldest first). Its `page_in(page,
access_pattern)` call classifies one reference as a hit or a fault. On a
fault with full frames it evicts a victim. It then appends the page and
reports three flags: page fault, eviction and replacement. The front end
feeds every page of the pattern, in order, to a fresh object and tabulates
the flags.

The three variants behave exactly as their code does, quirks included:

- FIFO evicts the front page and is the only variant that reports a
  replacement. An eviction under "LRU" or OPT reports fault and eviction but
  no replacement.
- "LRU" does not track recency. It evicts the resident page whose *first*
  occurrence in the whole access pattern comes latest, taking the earliest
  slot on ties. Pages that never occur in the pattern are never chosen.
- OPT scans the frames in slot order. It looks for the page in slot `i`
  in the pattern from position `i` on, where `i` is the slot and not the
  position of the current reference. The first page that does not occur
  there is evicted at once. Otherwise the page with the largest offset is
  evicted, and the earliest slot wins a tie.
- A hit changes nothing, not even the order of the frames.

Layout:

- `sequences.dfy` (`Sequences`) holds the list primitives the code uses:
  `list.index`, the slice `s[i:]`, `pop(k)`, and the "keep the first
  strictly larger" scan.
- `policies.dfy` (`Policies`) holds the specification:
  - the victim each policy picks, as ghost functions;
  - `Step`, the frames and flags after one call;
  - `RunPrefix` and `Run`, the state after replaying a prefix of the
    pattern;
  - lemmas about one step and about whole runs.
- `pager.dfy` (`Pager`) holds the imperative model:
  - the class `PageReplacement`, whose `frames` field the `page_in`
    methods update in place;
  - the two victim-search loops;
  - the simulation loop of the front end.

  Every method is proved against `Step` and the victim functions.
- `traces.dfy` (`Traces`) works out concrete runs. It shows the classic
  FIFO example, a single-frame run, and the two places where "LRU" and OPT
  depart from the policies they are named after.

One class, with an `algorithm` field, stands for the base class and its
three subclasses, and `PageIn` dispatches on that field. The flags are
booleans; the code returns them as the integers 0 and 1.

## Model

| member | source | states |
|---|---|---|
| Sequences.FirstIndex | Page_Replacement_Simulator_algorithm.py:54 | `list.index`: the result is a position holding the element, and no earlier position holds it |
| Sequences.RemoveAt | Page_Replacement_Simulator_algorithm.py:42 | `pop(k)`: one element shorter, the elements before `k` unchanged, and the later ones shifted down by one |
| Sequences.FirstArgMax | Page_Replacement_Simulator_algorithm.py:55-57 | the scan that keeps a candidate only when it is strictly larger ends on a maximum, and every earlier position is strictly smaller |
| Sequences.Window | Page_Replacement_Simulator_algorithm.py:76-79 | the slice `access_pattern[i:]`: the pattern from position `i` on, empty once `i` runs past the end; its length is `len - i`, or 0 past the end |
| Sequences.RemoveAtNoDups | Page_Replacement_Simulator_algorithm.py:84 | removing one element keeps a duplicate-free list duplicate-free and removes exactly that element |
| Sequences.FirstIndexNoDups | Page_Replacement_Simulator_algorithm.py:59 | in duplicate-free frames, `index` finds each page at its own slot |
| Policies.LruVictim | Page_Replacement_Simulator_algorithm.py:48-59 | the "LRU" victim is a referenced resident page whose first occurrence in the pattern is at least as late as that of every other referenced resident page, strictly later than every earlier slot's, and `frames.index` finds it at that slot |
| Policies.LruVictimAtLatest | Page_Replacement_Simulator_algorithm.py:52-59 | a scan ending on a referenced slot whose rank no slot exceeds and every earlier slot falls short of has found the "LRU" victim, and no other slot is it |
| Policies.NextUse | Page_Replacement_Simulator_algorithm.py:79 | the offset from position `i` of the next occurrence of a page, or -1 when there is none; never below -1 (its tie to the slice's `index` is `NextUseIsSliceIndex`) |
| Policies.NextUseIsSliceIndex | Page_Replacement_Simulator_algorithm.py:76-79 | a page has a next use from position `i` exactly when it is in `access_pattern[i:]`, and the next use is then that slice's `index` |
| Policies.OptVictim | Page_Replacement_Simulator_algorithm.py:73-84 | if some page is missing from its window, the victim is the first such slot and every earlier page is reused; otherwise every page is reused and the victim has the largest offset, strictly larger than every earlier slot's |
| Policies.OptVictimAtBreak | Page_Replacement_Simulator_algorithm.py:75-78 | a scan that reaches a page missing from its window, every earlier page being reused, picks that slot |
| Policies.OptVictimAllReused | Page_Replacement_Simulator_algorithm.py:79-84 | when every page is reused, the slot with the largest offset, earliest on ties, is the victim and no other slot is |
| Policies.HitIsNoOp | Page_Replacement_Simulator_algorithm.py:11-87 | a hit returns no flag and leaves the frames, including their order, unchanged, under every variant |
| Policies.MissWithRoomAppends | Page_Replacement_Simulator_algorithm.py:11-87 | a miss with a free frame appends the page and reports only the fault, under every variant |
| Policies.FifoFullDropsFront | Page_Replacement_Simulator_algorithm.py:21-25 | a FIFO miss on full frames drops the front page, appends the new one and reports all three flags |
| Policies.Evict | Page_Replacement_Simulator_algorithm.py:84 | the frames after the victim is looked up again and removed (`remove` here, `pop(frames.index(...))` at lines 42 and 59): one page shorter |
| Policies.Step | Page_Replacement_Simulator_algorithm.py:11-87 | `page_in` of all three variants: a hit keeps the frames and reports nothing; a miss with a free frame appends; a miss on full frames removes the variant's victim (the front page under FIFO) and appends; the flags are (fault, eviction, FIFO-only replacement); its properties are the lemmas below |
| Policies.OutcomeFlags | Page_Replacement_Simulator_algorithm.py:11-87 | fault iff the page is not resident; eviction iff that miss finds the frames full; replacement iff the variant is FIFO and it evicts |
| Policies.StepKeepsFramesOk | Page_Replacement_Simulator_algorithm.py:11-87 | every call keeps the frames within capacity and free of duplicates and leaves the page resident; the frames grow by one exactly on a miss with a free frame, otherwise keep their length; only the new page can enter |
| Policies.EvictRemovesVictim | Page_Replacement_Simulator_algorithm.py:84 | on duplicate-free frames, looking the victim up again and removing it removes exactly the victim's slot |
| Policies.RunPrefix | cie3_final_GUI.py:80-83 | after any prefix of a run the frames are within capacity and duplicate-free, every resident page comes from the pattern, and there is one outcome per reference fed |
| Policies.RunPrefixNext | cie3_final_GUI.py:81-82 | the next reference of a run can always be paged in, including by "LRU", and it extends the run by exactly one `page_in` step |
| Policies.RunFlagsCoupled | cie3_final_GUI.py:80-83 | in every row of a run's table an eviction is also a fault, and replacement equals eviction under FIFO and is never set under "LRU" or OPT |
| Policies.RunFramesStayFull | cie3_final_GUI.py:80-83 | once a run has filled the frames they stay full for the rest of the run |
| Pager.PageReplacement.constructor | Page_Replacement_Simulator_algorithm.py:2-4 | a new object has the given capacity and no resident page |
| Pager.PageReplacement.FifoPageIn | Page_Replacement_Simulator_algorithm.py:11-27 | FIFO `page_in` updates the frames in place to the `Step` result, returns its flags, and keeps the frame invariant |
| Pager.PageReplacement.FindLruPage | Page_Replacement_Simulator_algorithm.py:48-59 | the loop over the frames, with its `-1`/`None` accumulators and strict `>`, returns the slot `LruVictim` specifies |
| Pager.PageReplacement.LruPageIn | Page_Replacement_Simulator_algorithm.py:30-46 | "LRU" `page_in` pops the slot `find_lru_page` returns and appends the page; frames and flags are the `Step` result, and the invariant is kept |
| Pager.PageReplacement.FindOptVictim | Page_Replacement_Simulator_algorithm.py:73-82 | the scan with windows `access_pattern[i:]`, early `break` and strict `>` returns the page of the slot `OptVictim` specifies |
| Pager.PageReplacement.OptPageIn | Page_Replacement_Simulator_algorithm.py:62-87 | OPT `page_in` removes the scanned page and appends the new one; frames and flags are the `Step` result, and the invariant is kept |
| Pager.PageReplacement.PageIn | cie3_final_GUI.py:69-82 | the `page_in` of the variant chosen at construction; frames and flags are the `Step` result |
| Pager.Simulate | cie3_final_GUI.py:80-83 | feeding every page of the pattern in order to a fresh object yields exactly the outcomes `Run` specifies, one per reference |
| Traces.FifoClassicTrace | Page_Replacement_Simulator_algorithm.py:16-25 | FIFO with three frames on 1 2 3 4 1 2 5 faults on every reference, evicts on the last four, and ends with 1 2 5 resident |
| Traces.SingleFrameTrace | Page_Replacement_Simulator_algorithm.py:11-87 | with one frame, every variant faults on every reference of 1 2 1 2, evicts from the second on, and ends with 2 resident |
| Traces.LruVictimIsLatestFirstReference | Page_Replacement_Simulator_algorithm.py:48-59 | with 1 and 2 resident and pattern 1 2 3, "LRU" picks slot 1 (page 2, the most recently used) |
| Traces.LruEvictsLatestFirstReference | Page_Replacement_Simulator_algorithm.py:30-59 | two "LRU" frames on 1 2 3 end with 1 3 resident; the eviction reports no replacement |
| Traces.OptWindowAnchoredAtSlot | Page_Replacement_Simulator_algorithm.py:75-82 | with 1 2 3 resident and pattern 1 2 3 4 1 2 5 1 2 3, each page is found at offset 0 of its own window, so OPT picks slot 0 (page 1) |
| Traces.OptTraceFirstFour | Page_Replacement_Simulator_algorithm.py:62-87 | three OPT frames on that pattern hold 2 3 4 after four references, the fourth evicting 1 with no replacement reported |

## Left out

- The tkinter front end: window, option menu, text entry, the `split()`
  parsing of the pattern and the table of results. Only its simulation loop
  is modelled, as `Pager.Simulate`, and the capacity it passes (3) is left a
  parameter.
- The base-class `page_in` stub returns nothing and is not modelled.
  Instances are always one of the three variants.
- A capacity below one: with it, every variant raises on its first
  `page_in` (`pop(0)` on an empty list, or `index`/`remove` of `None`). The
  constructor requires a capacity of at least one.
- Pager.PageReplacement.LruPageIn: when no resident page occurs in the pattern,
  `find_lru_page` raises (`frames.index(None)`). This exception path is not
  modelled; `CanPageIn` requires a referenced resident page in that case.
  `Policies.RunPrefixNext` proves the requirement always holds inside a
  simulation, because every resident page came from the pattern.
- Exceptions are not modelled as values; the model has no counterpart of
  Python's `IndexError` or `ValueError`.
- True least-recently-used replacement, OPT measured from the current
  reference, and a replacement flag for "LRU" and OPT. The code does not do
  these, so the model does not either; the traces show where it differs.
- Pages are opaque values compared only for equality. The model does not
  depend on the front end passing them as strings.
