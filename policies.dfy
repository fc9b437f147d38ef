/**
 What one reference does to the resident frames under each policy, as
 functions of the frames before the call: the victim each policy picks, the
 new frames and the three flags reported, and the state after a whole
 reference sequence has been replayed.
 */
module Policies {
  import opened Sequences

  datatype Algorithm = FIFO | LRU | OPT

  /** The triple `page_in` returns; the source reports each flag as 0 or 1. */
  datatype Outcome = Outcome(pageFault: bool, eviction: bool, replacement: bool)

  // ---------------------------------------------------------------- LRU victim

  /**
   The rank the "LRU" scan gives a resident page: the index of its FIRST
   occurrence anywhere in the whole access pattern, or -1 when it never
   occurs (such a page never beats the scan's starting value -1).
   */
  ghost function Rank<T>(pattern: seq<T>, page: T): int
  {
    if page in pattern then FirstIndex(pattern, page) else -1
  }

  ghost function Ranks<T>(frames: seq<T>, pattern: seq<T>): seq<int>
  {
    seq(|frames|, j requires 0 <= j < |frames| => Rank(pattern, frames[j]))
  }

  /** Some resident page occurs in the pattern; without one `find_lru_page` raises. */
  ghost predicate SomeResidentReferenced<T>(frames: seq<T>, pattern: seq<T>)
  {
    exists j :: 0 <= j < |frames| && frames[j] in pattern
  }

  /**
   The slot `find_lru_page` returns: the resident page whose first occurrence
   in the pattern comes latest, the earliest slot on ties. It is also the
   slot where `frames.index` finds that page again.
   */
  ghost function LruVictim<T>(frames: seq<T>, pattern: seq<T>): (k: nat)
    requires SomeResidentReferenced(frames, pattern)
    ensures k < |frames| && frames[k] in pattern
    ensures forall j :: 0 <= j < |frames| && frames[j] in pattern ==>
      FirstIndex(pattern, frames[j]) <= FirstIndex(pattern, frames[k])
    ensures forall j :: 0 <= j < k && frames[j] in pattern ==>
      FirstIndex(pattern, frames[j]) < FirstIndex(pattern, frames[k])
    ensures FirstIndex(frames, frames[k]) == k
  {
    var r := Ranks(frames, pattern);
    var w :| 0 <= w < |frames| && frames[w] in pattern;
    var k := FirstArgMax(r);
    assert r[w] >= 0 && r[k] >= r[w];
    assert frames[k] in pattern;
    assert forall j :: 0 <= j < |frames| && frames[j] in pattern ==>
      FirstIndex(pattern, frames[j]) <= FirstIndex(pattern, frames[k]) by {
      forall j | 0 <= j < |frames| && frames[j] in pattern
        ensures FirstIndex(pattern, frames[j]) <= FirstIndex(pattern, frames[k])
      {
        assert r[j] <= r[k];
      }
    }
    assert forall j :: 0 <= j < k ==> frames[j] != frames[k] by {
      forall j | 0 <= j < k ensures frames[j] != frames[k] {
        assert r[j] < r[k];
      }
    }
    k
  }

  /**
   A scan that ends on a referenced slot whose rank no slot exceeds and every
   earlier slot falls short of has found the "LRU" victim; no other slot has
   that property.
   */
  lemma LruVictimAtLatest<T>(frames: seq<T>, pattern: seq<T>, best: nat)
    requires best < |frames| && frames[best] in pattern
    requires forall j :: 0 <= j < |frames| ==> Ranks(frames, pattern)[j] <= Ranks(frames, pattern)[best]
    requires forall j :: 0 <= j < best ==> Ranks(frames, pattern)[j] < Ranks(frames, pattern)[best]
    ensures LruVictim(frames, pattern) == best
  {
    var r := Ranks(frames, pattern);
    var v := LruVictim(frames, pattern);
    assert r[v] == FirstIndex(pattern, frames[v]) && r[best] == FirstIndex(pattern, frames[best]);
  }

  // ---------------------------------------------------------------- OPT victim

  /**
   How far ahead of position `from` the page `x` is next referenced: the
   offset of its first occurrence in `pattern` at or after `from`, and -1
   when it does not occur there.
   */
  ghost function NextUse<T>(pattern: seq<T>, from: nat, x: T): (r: int)
    ensures r >= -1
    decreases |pattern| - from
  {
    if from >= |pattern| then -1
    else if pattern[from] == x then 0
    else
      var r := NextUse(pattern, from + 1, x);
      if r < 0 then -1 else r + 1
  }

  /**
   `NextUse` is what the source computes with a slice and `index`: `x` occurs
   in `pattern[from:]` exactly when it has a next use, and `index` then
   returns that offset.
   */
  lemma {:induction false} NextUseIsSliceIndex<T>(pattern: seq<T>, from: nat, x: T)
    ensures NextUse(pattern, from, x) >= 0 <==> x in Window(pattern, from)
    ensures x in Window(pattern, from) ==> NextUse(pattern, from, x) == FirstIndex(Window(pattern, from), x)
    decreases |pattern| - from
  {
    if from < |pattern| && pattern[from] != x {
      NextUseIsSliceIndex(pattern, from + 1, x);
      var w := Window(pattern, from);
      assert w[1..] == Window(pattern, from + 1);
      assert x in w ==> x in w[1..];
    }
  }

  /**
   Whether the page in slot `j` is referenced again in the window the OPT
   scan gives it: the pattern from position `j` on, where `j` is the slot in
   `frames` and not the position of the current reference.
   */
  ghost predicate ReusedAhead<T>(frames: seq<T>, pattern: seq<T>, j: nat)
    requires j < |frames|
  {
    NextUse(pattern, j, frames[j]) >= 0
  }

  /** Offset of the next use of slot `j`'s page inside its window, -1 if none. */
  ghost function Distance<T>(frames: seq<T>, pattern: seq<T>, j: nat): int
    requires j < |frames|
  {
    NextUse(pattern, j, frames[j])
  }

  /** The offsets of all slots, in slot order. */
  ghost function Distances<T>(frames: seq<T>, pattern: seq<T>): seq<int>
  {
    seq(|frames|, j requires 0 <= j < |frames| => Distance(frames, pattern, j))
  }

  ghost predicate SomeNeverReused<T>(frames: seq<T>, pattern: seq<T>)
  {
    exists j :: 0 <= j < |frames| && !ReusedAhead(frames, pattern, j)
  }

  /** The first slot at or after `i` whose page does not occur in its window. */
  ghost function FirstNeverReused<T>(frames: seq<T>, pattern: seq<T>, i: nat): (k: nat)
    requires exists j :: i <= j < |frames| && !ReusedAhead(frames, pattern, j)
    ensures i <= k < |frames| && !ReusedAhead(frames, pattern, k)
    ensures forall j :: i <= j < k ==> ReusedAhead(frames, pattern, j)
    decreases |frames| - i
  {
    if !ReusedAhead(frames, pattern, i) then i else FirstNeverReused(frames, pattern, i + 1)
  }

  /**
   The slot whose page the OPT scan removes: the first slot whose page never
   occurs in its window, and when every page does, the slot with the largest
   offset, the earliest one on ties.
   */
  ghost function OptVictim<T>(frames: seq<T>, pattern: seq<T>): (k: nat)
    requires |frames| > 0
    ensures k < |frames|
    ensures SomeNeverReused(frames, pattern) ==>
      !ReusedAhead(frames, pattern, k) &&
      forall j :: 0 <= j < k ==> ReusedAhead(frames, pattern, j)
    ensures !SomeNeverReused(frames, pattern) ==>
      (forall j :: 0 <= j < |frames| ==> ReusedAhead(frames, pattern, j)) &&
      (forall j :: 0 <= j < |frames| ==> Distance(frames, pattern, j) <= Distance(frames, pattern, k)) &&
      (forall j :: 0 <= j < k ==> Distance(frames, pattern, j) < Distance(frames, pattern, k))
  {
    if SomeNeverReused(frames, pattern) then FirstNeverReused(frames, pattern, 0)
    else
      var d := Distances(frames, pattern);
      var k := FirstArgMax(d);
      assert forall j :: 0 <= j < |frames| ==> d[j] == Distance(frames, pattern, j);
      k
  }

  /** A scan that meets a never-reused frame at slot `i`, every earlier one reused, picks slot `i`. */
  lemma OptVictimAtBreak<T>(frames: seq<T>, pattern: seq<T>, i: nat)
    requires i < |frames| && !ReusedAhead(frames, pattern, i)
    requires forall j :: 0 <= j < i ==> ReusedAhead(frames, pattern, j)
    ensures OptVictim(frames, pattern) == i
  {
  }

  /**
   A scan that finds every frame reused picks the slot of the largest offset,
   the earliest one on ties; no other slot has that property.
   */
  lemma OptVictimAllReused<T>(frames: seq<T>, pattern: seq<T>, best: nat)
    requires best < |frames|
    requires forall j :: 0 <= j < |frames| ==> ReusedAhead(frames, pattern, j)
    requires forall j :: 0 <= j < |frames| ==> Distance(frames, pattern, j) <= Distance(frames, pattern, best)
    requires forall j :: 0 <= j < best ==> Distance(frames, pattern, j) < Distance(frames, pattern, best)
    ensures OptVictim(frames, pattern) == best
  {
    assert !SomeNeverReused(frames, pattern);
  }

  // ---------------------------------------------------------------- one reference

  /**
   The frames after the page in slot `k` is evicted. Both LRU (`pop` at
   `frames.index(page)`) and OPT (`frames.remove(page)`) look the chosen page
   up again, so the slot removed is that page's first occurrence.
   */
  ghost function Evict<T>(frames: seq<T>, k: nat): (r: seq<T>)
    requires k < |frames|
    ensures |r| == |frames| - 1
  {
    RemoveAt(frames, FirstIndex(frames, frames[k]))
  }

  /** What `page_in` needs: a capacity of at least one, and for LRU a referenced resident page when it must evict. */
  ghost predicate CanPageIn<T>(alg: Algorithm, frameCount: nat, frames: seq<T>, page: T, pattern: seq<T>)
  {
    && frameCount >= 1
    && (alg == LRU && page !in frames && |frames| >= frameCount ==> SomeResidentReferenced(frames, pattern))
  }

  /** The frames and the outcome after one `page_in(page, pattern)` call. */
  ghost function Step<T>(alg: Algorithm, frameCount: nat, frames: seq<T>, page: T, pattern: seq<T>): (seq<T>, Outcome)
    requires CanPageIn(alg, frameCount, frames, page, pattern)
  {
    if page in frames then (frames, Outcome(false, false, false))
    else if |frames| < frameCount then (frames + [page], Outcome(true, false, false))
    else
      match alg
      case FIFO => (frames[1..] + [page], Outcome(true, true, true))
      case LRU => (Evict(frames, LruVictim(frames, pattern)) + [page], Outcome(true, true, false))
      case OPT => (Evict(frames, OptVictim(frames, pattern)) + [page], Outcome(true, true, false))
  }

  /** The invariant of the resident frames: within capacity and no page twice. */
  ghost predicate FramesOk<T>(frameCount: nat, frames: seq<T>)
  {
    |frames| <= frameCount && NoDups(frames)
  }

  /** A hit changes nothing, not even the order of the frames, and reports no flag. */
  lemma HitIsNoOp<T>(alg: Algorithm, frameCount: nat, frames: seq<T>, page: T, pattern: seq<T>)
    requires frameCount >= 1 && page in frames
    ensures CanPageIn(alg, frameCount, frames, page, pattern)
    ensures Step(alg, frameCount, frames, page, pattern) == (frames, Outcome(false, false, false))
  {
  }

  /** A miss with a free frame appends the page at the back and reports only the fault. */
  lemma MissWithRoomAppends<T>(alg: Algorithm, frameCount: nat, frames: seq<T>, page: T, pattern: seq<T>)
    requires frameCount >= 1 && page !in frames && |frames| < frameCount
    ensures CanPageIn(alg, frameCount, frames, page, pattern)
    ensures Step(alg, frameCount, frames, page, pattern) == (frames + [page], Outcome(true, false, false))
  {
  }

  /** A FIFO miss on full frames drops the oldest page (the front) and reports all three flags. */
  lemma FifoFullDropsFront<T>(frameCount: nat, frames: seq<T>, page: T, pattern: seq<T>)
    requires frameCount >= 1 && page !in frames && |frames| >= frameCount
    ensures CanPageIn(FIFO, frameCount, frames, page, pattern)
    ensures Step(FIFO, frameCount, frames, page, pattern) == (frames[1..] + [page], Outcome(true, true, true))
  {
  }

  /**
   The flags: a fault exactly when the page is not resident, an eviction
   exactly when that miss finds the frames full, and a replacement exactly
   when FIFO evicts; LRU and OPT never report one.
   */
  lemma OutcomeFlags<T>(alg: Algorithm, frameCount: nat, frames: seq<T>, page: T, pattern: seq<T>)
    requires CanPageIn(alg, frameCount, frames, page, pattern)
    ensures var o := Step(alg, frameCount, frames, page, pattern).1;
      && (o.pageFault <==> page !in frames)
      && (o.eviction <==> page !in frames && |frames| >= frameCount)
      && (o.replacement <==> alg == FIFO && o.eviction)
  {
  }

  /** On duplicate-free frames an LRU or OPT eviction removes exactly the victim's slot. */
  lemma EvictRemovesVictim<T>(frames: seq<T>, k: nat)
    requires k < |frames| && NoDups(frames)
    ensures Evict(frames, k) == RemoveAt(frames, k)
  {
    FirstIndexNoDups(frames, k);
  }

  /**
   Every step keeps the frames within capacity and free of duplicates; the
   page is resident afterwards; the frames grow by one exactly on a miss with
   a free frame and never shrink; and no page other than the new one enters.
   */
  lemma StepKeepsFramesOk<T>(alg: Algorithm, frameCount: nat, frames: seq<T>, page: T, pattern: seq<T>)
    requires CanPageIn(alg, frameCount, frames, page, pattern) && FramesOk(frameCount, frames)
    ensures var (f, o) := Step(alg, frameCount, frames, page, pattern);
      && FramesOk(frameCount, f)
      && page in f
      && |f| == (if o.pageFault && !o.eviction then |frames| + 1 else |frames|)
      && forall x :: x in f ==> x in frames || x == page
  {
    var (f, o) := Step(alg, frameCount, frames, page, pattern);
    if page !in frames && |frames| >= frameCount {
      var k := match alg
        case FIFO => 0
        case LRU => LruVictim(frames, pattern)
        case OPT => OptVictim(frames, pattern);
      EvictRemovesVictim(frames, k);
      RemoveAtNoDups(frames, k);
      if alg == FIFO {
        assert frames[1..] == RemoveAt(frames, 0);
      }
      var rest := RemoveAt(frames, k);
      assert f == rest + [page];
      assert NoDups(f) by {
        forall i, j | 0 <= i < j < |f| ensures f[i] != f[j] {
          if j == |rest| { assert f[i] in rest; }
        }
      }
    } else if page !in frames {
      assert NoDups(f) by {
        forall i, j | 0 <= i < j < |f| ensures f[i] != f[j] {
          if j == |frames| { assert f[i] in frames; }
        }
      }
    }
  }

  // ---------------------------------------------------------------- a whole run

  /**
   The frames and outcomes after the first `n` references of `pattern` have
   been fed, in order, to a fresh instance. Every page fed comes from the
   pattern, so every resident page does, which is what LRU needs.
   */
  ghost function RunPrefix<T>(alg: Algorithm, frameCount: nat, pattern: seq<T>, n: nat): (r: (seq<T>, seq<Outcome>))
    requires frameCount >= 1 && n <= |pattern|
    ensures FramesOk(frameCount, r.0)
    ensures forall x :: x in r.0 ==> x in pattern
    ensures |r.1| == n
    decreases n
  {
    if n == 0 then ([], [])
    else
      var (frames, outcomes) := RunPrefix(alg, frameCount, pattern, n - 1);
      var page := pattern[n - 1];
      assert frames != [] ==> frames[0] in pattern;
      var (f, o) := Step(alg, frameCount, frames, page, pattern);
      StepKeepsFramesOk(alg, frameCount, frames, page, pattern);
      (f, outcomes + [o])
  }

  /** One more reference of a run is one more `Step` on the frames the run has reached. */
  lemma RunPrefixNext<T>(alg: Algorithm, frameCount: nat, pattern: seq<T>, n: nat)
    requires frameCount >= 1 && n < |pattern|
    ensures CanPageIn(alg, frameCount, RunPrefix(alg, frameCount, pattern, n).0, pattern[n], pattern)
    ensures var (frames, outcomes) := RunPrefix(alg, frameCount, pattern, n);
      var (f, o) := Step(alg, frameCount, frames, pattern[n], pattern);
      RunPrefix(alg, frameCount, pattern, n + 1) == (f, outcomes + [o])
  {
    var frames := RunPrefix(alg, frameCount, pattern, n).0;
    assert frames != [] ==> frames[0] in pattern;
  }

  /** The outcome of every reference of a run, in order (the table the caller shows). */
  ghost function Run<T>(alg: Algorithm, frameCount: nat, pattern: seq<T>): seq<Outcome>
    requires frameCount >= 1
  {
    RunPrefix(alg, frameCount, pattern, |pattern|).1
  }

  /**
   Across a whole run every reported eviction is a fault, and the replacement
   flag equals the eviction flag under FIFO and is never set under LRU or OPT.
   */
  lemma {:induction false} RunFlagsCoupled<T>(alg: Algorithm, frameCount: nat, pattern: seq<T>, n: nat)
    requires frameCount >= 1 && n <= |pattern|
    ensures var outs := RunPrefix(alg, frameCount, pattern, n).1;
      forall i :: 0 <= i < n ==>
        (outs[i].eviction ==> outs[i].pageFault) &&
        (outs[i].replacement <==> alg == FIFO && outs[i].eviction)
  {
    if n > 0 {
      RunFlagsCoupled(alg, frameCount, pattern, n - 1);
      var (frames, prev) := RunPrefix(alg, frameCount, pattern, n - 1);
      assert frames != [] ==> frames[0] in pattern;
      OutcomeFlags(alg, frameCount, frames, pattern[n - 1], pattern);
      var o := Step(alg, frameCount, frames, pattern[n - 1], pattern).1;
      var outs := RunPrefix(alg, frameCount, pattern, n).1;
      assert outs == prev + [o];
      forall i | 0 <= i < n
        ensures (outs[i].eviction ==> outs[i].pageFault) &&
                (outs[i].replacement <==> alg == FIFO && outs[i].eviction)
      {
        if i < n - 1 {
          assert outs[i] == prev[i];
          assert prev == RunPrefix(alg, frameCount, pattern, n - 1).1;
        } else {
          assert outs[i] == o;
        }
      }
    }
  }

  /** Once a run has filled the frames they stay full for the rest of the run. */
  lemma {:induction false} RunFramesStayFull<T>(alg: Algorithm, frameCount: nat, pattern: seq<T>, m: nat, n: nat)
    requires frameCount >= 1 && m <= n <= |pattern|
    requires |RunPrefix(alg, frameCount, pattern, m).0| == frameCount
    ensures |RunPrefix(alg, frameCount, pattern, n).0| == frameCount
    decreases n - m
  {
    if m < n {
      var (frames, _) := RunPrefix(alg, frameCount, pattern, m);
      assert frames != [] ==> frames[0] in pattern;
      StepKeepsFramesOk(alg, frameCount, frames, pattern[m], pattern);
      RunFramesStayFull(alg, frameCount, pattern, m + 1, n);
    }
  }
}
