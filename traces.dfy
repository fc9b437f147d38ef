/**
 Whole runs on concrete reference sequences, worked out from the step rules:
 the classic FIFO example, a single-frame run, and the two places where the
 "LRU" and OPT variants differ from the policies they are named after.
 */
module Traces {
  import opened Sequences
  import opened Policies

  const F := Outcome(true, false, false)    // fault, a free frame was used
  const FIFO_EVICT := Outcome(true, true, true)
  const EVICT := Outcome(true, true, false) // LRU and OPT never report a replacement

  /** Advances a run by one reference whose step has been worked out. */
  lemma Next(alg: Algorithm, frameCount: nat, p: seq<int>, n: nat,
             frames: seq<int>, outs: seq<Outcome>, f: seq<int>, o: Outcome)
    requires frameCount >= 1 && n < |p|
    requires RunPrefix(alg, frameCount, p, n).0 == frames && RunPrefix(alg, frameCount, p, n).1 == outs
    requires CanPageIn(alg, frameCount, frames, p[n], p)
    requires Step(alg, frameCount, frames, p[n], p).0 == f && Step(alg, frameCount, frames, p[n], p).1 == o
    ensures RunPrefix(alg, frameCount, p, n + 1).0 == f && RunPrefix(alg, frameCount, p, n + 1).1 == outs + [o]
  {
    RunPrefixNext(alg, frameCount, p, n);
  }

  /** The first two references of the FIFO example each take a free frame. */
  lemma FifoClassicFirstTwo(p: seq<int>)
    requires p == [1, 2, 3, 4, 1, 2, 5]
    ensures RunPrefix(FIFO, 3, p, 2).0 == [1, 2]
    ensures RunPrefix(FIFO, 3, p, 2).1 == [F, F]
  {
    Next(FIFO, 3, p, 0, [], [], [1], F);
    Next(FIFO, 3, p, 1, [1], [F], [1, 2], F);
  }

  /** The first four references of the FIFO example: three frames fill up, then 1 is evicted. */
  lemma FifoClassicFirstFour(p: seq<int>)
    requires p == [1, 2, 3, 4, 1, 2, 5]
    ensures RunPrefix(FIFO, 3, p, 4).0 == [2, 3, 4]
    ensures RunPrefix(FIFO, 3, p, 4).1 == [F, F, F, FIFO_EVICT]
  {
    FifoClassicFirstTwo(p);
    Next(FIFO, 3, p, 2, [1, 2], [F, F], [1, 2, 3], F);
    Next(FIFO, 3, p, 3, [1, 2, 3], [F, F, F], [2, 3, 4], FIFO_EVICT);
  }

  /**
   FIFO with three frames on 1 2 3 4 1 2 5: every reference faults, the last
   four evict (1, 2, 3, then 4 in turn), and 1 2 5 stay resident.
   */
  lemma FifoClassicTrace()
    ensures RunPrefix(FIFO, 3, [1, 2, 3, 4, 1, 2, 5], 7).0 == [1, 2, 5]
    ensures RunPrefix(FIFO, 3, [1, 2, 3, 4, 1, 2, 5], 7).1 ==
      [F, F, F, FIFO_EVICT, FIFO_EVICT, FIFO_EVICT, FIFO_EVICT]
  {
    var p := [1, 2, 3, 4, 1, 2, 5];
    FifoClassicFirstFour(p);
    Next(FIFO, 3, p, 4, [2, 3, 4], [F, F, F, FIFO_EVICT], [3, 4, 1], FIFO_EVICT);
    Next(FIFO, 3, p, 5, [3, 4, 1], [F, F, F, FIFO_EVICT, FIFO_EVICT], [4, 1, 2], FIFO_EVICT);
    Next(FIFO, 3, p, 6, [4, 1, 2], [F, F, F, FIFO_EVICT, FIFO_EVICT, FIFO_EVICT], [1, 2, 5], FIFO_EVICT);
  }

  /** The flags of an eviction under `alg`: only FIFO reports a replacement. */
  function Evicted(alg: Algorithm): (o: Outcome)
    ensures o.pageFault && o.eviction
    ensures o.replacement <==> alg == FIFO
  {
    if alg == FIFO then FIFO_EVICT else EVICT
  }

  /** A miss on a single occupied frame replaces its page, under every policy. */
  lemma SingleFrameMiss(alg: Algorithm, frame: int, page: int, p: seq<int>)
    requires frame in p && page != frame
    ensures CanPageIn(alg, 1, [frame], page, p)
    ensures Step(alg, 1, [frame], page, p).0 == [page]
    ensures Step(alg, 1, [frame], page, p).1 == Evicted(alg)
  {
    assert [frame][0] in p;
    assert [frame][1..] == [] && RemoveAt([frame], 0) == [];
  }

  /** One frame, 1 then 2: the first reference takes the free frame, the second evicts. */
  lemma SingleFrameFirstTwo(alg: Algorithm, p: seq<int>)
    requires p == [1, 2, 1, 2]
    ensures RunPrefix(alg, 1, p, 2).0 == [2]
    ensures RunPrefix(alg, 1, p, 2).1 == [F, Evicted(alg)]
  {
    Next(alg, 1, p, 0, [], [], [1], F);
    SingleFrameMiss(alg, 1, 2, p);
    Next(alg, 1, p, 1, [1], [F], [2], Evicted(alg));
  }

  /** One frame, 1 2 1: the third reference evicts 2 again. */
  lemma SingleFrameFirstThree(alg: Algorithm, p: seq<int>)
    requires p == [1, 2, 1, 2]
    ensures RunPrefix(alg, 1, p, 3).0 == [1]
    ensures RunPrefix(alg, 1, p, 3).1 == [F, Evicted(alg), Evicted(alg)]
  {
    SingleFrameFirstTwo(alg, p);
    SingleFrameMiss(alg, 2, 1, p);
    Next(alg, 1, p, 2, [2], [F, Evicted(alg)], [1], Evicted(alg));
  }

  /**
   With a single frame all three policies behave alike: on 1 2 1 2 every
   reference faults and every reference after the first evicts the only
   resident page.
   */
  lemma SingleFrameTrace(alg: Algorithm, p: seq<int>)
    requires p == [1, 2, 1, 2]
    ensures RunPrefix(alg, 1, p, 4).0 == [2]
    ensures RunPrefix(alg, 1, p, 4).1 == [F, Evicted(alg), Evicted(alg), Evicted(alg)]
  {
    SingleFrameFirstThree(alg, p);
    SingleFrameMiss(alg, 1, 2, p);
    Next(alg, 1, p, 3, [1], [F, Evicted(alg), Evicted(alg)], [2], Evicted(alg));
  }

  /**
   The "LRU" scan ranks a page by its first occurrence in the whole pattern:
   with 1 and 2 resident and pattern 1 2 3 it evicts 2, the page used most
   recently, where least-recently-used would evict 1.
   */
  lemma LruVictimIsLatestFirstReference(p: seq<int>)
    requires p == [1, 2, 3]
    ensures SomeResidentReferenced([1, 2], p)
    ensures LruVictim([1, 2], p) == 1
  {
    var fs := [1, 2];
    assert fs[0] in p;
    assert FirstIndex(p, 1) == 0 && FirstIndex(p, 2) == 1;
    var k := LruVictim(fs, p);
    assert fs[1] in p && FirstIndex(p, fs[1]) <= FirstIndex(p, fs[k]);
  }

  /** The first two LRU references each take a free frame. */
  lemma LruFirstTwo(p: seq<int>)
    requires p == [1, 2, 3]
    ensures RunPrefix(LRU, 2, p, 2).0 == [1, 2]
    ensures RunPrefix(LRU, 2, p, 2).1 == [F, F]
  {
    Next(LRU, 2, p, 0, [], [], [1], F);
    Next(LRU, 2, p, 1, [1], [F], [1, 2], F);
  }

  /** The miss on 3 with 1 2 resident in two frames: 2 goes, 3 is appended. */
  lemma LruThirdReference(p: seq<int>)
    requires p == [1, 2, 3]
    ensures CanPageIn(LRU, 2, [1, 2], 3, p)
    ensures Step(LRU, 2, [1, 2], 3, p).0 == [1, 3] && Step(LRU, 2, [1, 2], 3, p).1 == EVICT
  {
    LruVictimIsLatestFirstReference(p);
    assert FirstIndex([1, 2], 2) == 1 && RemoveAt([1, 2], 1) == [1];
  }

  /** Two LRU frames on 1 2 3: the third reference evicts 2 and leaves 1 3 resident. */
  lemma LruEvictsLatestFirstReference(p: seq<int>)
    requires p == [1, 2, 3]
    ensures RunPrefix(LRU, 2, p, 3).0 == [1, 3]
    ensures RunPrefix(LRU, 2, p, 3).1 == [F, F, EVICT]
  {
    LruFirstTwo(p);
    LruThirdReference(p);
    Next(LRU, 2, p, 2, [1, 2], [F, F], [1, 3], EVICT);
  }

  /**
   The OPT scan looks for the page of slot `j` from position `j` of the
   pattern on, whatever reference is being served. With 1 2 3 resident each
   page is found at offset 0 of its own window, so the tie goes to slot 0 and
   page 1 is evicted, although 3 is the page referenced farthest ahead of the
   fourth reference.
   */
  lemma OptWindowAnchoredAtSlot(p: seq<int>)
    requires p == [1, 2, 3, 4, 1, 2, 5, 1, 2, 3]
    ensures OptVictim([1, 2, 3], p) == 0
  {
    var fs := [1, 2, 3];
    assert Distance(fs, p, 0) == 0 && Distance(fs, p, 1) == 0 && Distance(fs, p, 2) == 0;
    OptVictimAllReused(fs, p, 0);
  }

  /** The first two references of the OPT example each take a free frame. */
  lemma OptTraceFirstTwo(p: seq<int>)
    requires p == [1, 2, 3, 4, 1, 2, 5, 1, 2, 3]
    ensures RunPrefix(OPT, 3, p, 2).0 == [1, 2]
    ensures RunPrefix(OPT, 3, p, 2).1 == [F, F]
  {
    Next(OPT, 3, p, 0, [], [], [1], F);
    Next(OPT, 3, p, 1, [1], [F], [1, 2], F);
  }

  /** The third reference of the OPT example takes the last free frame. */
  lemma OptTraceFirstThree(p: seq<int>)
    requires p == [1, 2, 3, 4, 1, 2, 5, 1, 2, 3]
    ensures RunPrefix(OPT, 3, p, 3).0 == [1, 2, 3]
    ensures RunPrefix(OPT, 3, p, 3).1 == [F, F, F]
  {
    OptTraceFirstTwo(p);
    Next(OPT, 3, p, 2, [1, 2], [F, F], [1, 2, 3], F);
  }

  /** The miss on 4 with 1 2 3 resident in three OPT frames: 1 goes, 4 is appended. */
  lemma OptFourthReference(p: seq<int>)
    requires p == [1, 2, 3, 4, 1, 2, 5, 1, 2, 3]
    ensures Step(OPT, 3, [1, 2, 3], 4, p).0 == [2, 3, 4] && Step(OPT, 3, [1, 2, 3], 4, p).1 == EVICT
  {
    OptWindowAnchoredAtSlot(p);
    assert RemoveAt([1, 2, 3], 0) == [2, 3];
  }

  /** OPT with three frames on the same pattern: after 1 2 3 the miss on 4 evicts 1. */
  lemma OptTraceFirstFour(p: seq<int>)
    requires p == [1, 2, 3, 4, 1, 2, 5, 1, 2, 3]
    ensures RunPrefix(OPT, 3, p, 4).0 == [2, 3, 4]
    ensures RunPrefix(OPT, 3, p, 4).1 == [F, F, F, EVICT]
  {
    OptTraceFirstThree(p);
    OptFourthReference(p);
    Next(OPT, 3, p, 3, [1, 2, 3], [F, F, F], [2, 3, 4], EVICT);
  }
}
