/**
 The page-replacement objects themselves. One class stands for the base
 class and its three subclasses: `algorithm` says which `page_in` an
 instance runs, `frameCount` is the capacity and `frames` the list of
 resident pages, oldest first, which every `page_in` updates in place.
 */
module Pager {
  import opened Sequences
  import opened Policies

  datatype Option<T> = None | Some(value: T)

  class PageReplacement<T(==)> {
    const algorithm: Algorithm
    const frameCount: nat
    var frames: seq<T>

    /** At least one frame, never more pages than frames, no page twice. */
    ghost predicate Valid()
      reads this
    {
      frameCount >= 1 && FramesOk(frameCount, frames)
    }

    /**
     A fresh instance with no resident page. A capacity below one is refused
     here: with it the first `page_in` of every variant raises.
     */
    constructor (algorithm: Algorithm, frameCount: nat)
      requires frameCount >= 1
      ensures Valid()
      ensures this.algorithm == algorithm && this.frameCount == frameCount && frames == []
    {
      this.algorithm := algorithm;
      this.frameCount := frameCount;
      frames := [];
    }

    /** FIFO: a miss on full frames pops the front page, then the page is appended. */
    method FifoPageIn(page: T, pattern: seq<T>) returns (o: Outcome)
      requires Valid() && algorithm == FIFO
      modifies this
      ensures Valid()
      ensures (frames, o) == Step(FIFO, frameCount, old(frames), page, pattern)
    {
      var pageFault, eviction, replacement := false, false, false;
      if page !in frames {
        pageFault := true;
        if |frames| < frameCount {
          frames := frames + [page];
        } else {
          eviction := true;
          frames := frames[1..];
          frames := frames + [page];
          replacement := true;
        }
      }
      o := Outcome(pageFault, eviction, replacement);
      StepKeepsFramesOk(FIFO, frameCount, old(frames), page, pattern);
    }

    /**
     The slot `find_lru_page` picks: a scan over the frames that keeps the
     page with the largest first-occurrence index in the pattern (strict `>`,
     so the earliest slot on ties), then looks that page up in the frames.
     */
    method FindLruPage(pattern: seq<T>) returns (k: nat)
      requires SomeResidentReferenced(frames, pattern)
      ensures k == LruVictim(frames, pattern)
    {
      ghost var r := Ranks(frames, pattern);
      var lruIndex: int := -1;
      var lruPage: Option<T> := None;
      ghost var best: nat := 0;
      var i := 0;
      while i < |frames|
        invariant 0 <= i <= |frames| && best <= i
        invariant lruPage == None ==> lruIndex == -1 && forall j :: 0 <= j < i ==> r[j] < 0
        invariant lruPage != None ==>
          best < i && lruPage == Some(frames[best]) && frames[best] in pattern && lruIndex == r[best]
        invariant forall j :: 0 <= j < i ==> r[j] <= lruIndex
        invariant forall j :: 0 <= j < best ==> r[j] < lruIndex
      {
        var frame := frames[i];
        if frame in pattern {
          var index := FirstIndex(pattern, frame);
          if index > lruIndex {
            lruIndex := index;
            lruPage := Some(frame);
            best := i;
          }
        }
        i := i + 1;
      }
      var w :| 0 <= w < |frames| && frames[w] in pattern;
      assert r[w] >= 0;
      LruVictimAtLatest(frames, pattern, best);
      k := FirstIndex(frames, lruPage.value);
    }

    /** LRU: a miss on full frames pops the slot `FindLruPage` returns; the page is then appended. */
    method LruPageIn(page: T, pattern: seq<T>) returns (o: Outcome)
      requires Valid() && algorithm == LRU
      requires CanPageIn(LRU, frameCount, frames, page, pattern)
      modifies this
      ensures Valid()
      ensures (frames, o) == Step(LRU, frameCount, old(frames), page, pattern)
    {
      var pageFault, eviction, replacement := false, false, false;
      if page !in frames {
        pageFault := true;
        if |frames| >= frameCount {
          eviction := true;
          var lruPageIndex := FindLruPage(pattern);
          frames := RemoveAt(frames, lruPageIndex);
        }
        frames := frames + [page];
      }
      o := Outcome(pageFault, eviction, replacement);
      StepKeepsFramesOk(LRU, frameCount, old(frames), page, pattern);
    }

    /**
     The page the OPT scan picks: the first frame that does not occur in its
     window `pattern[i:]` (slot `i` of the frame, not the current position)
     ends the scan; otherwise the frame whose offset in its window is
     largest, the earliest on ties.
     */
    method FindOptVictim(pattern: seq<T>) returns (v: T)
      requires |frames| > 0
      ensures v == frames[OptVictim(frames, pattern)]
    {
      var fs := frames;
      var farthestUsed: int := -1;
      var pageToReplace: Option<T> := None;
      ghost var best: nat := 0;
      var i := 0;
      while i < |fs|
        invariant 0 <= i <= |fs| && best <= i
        invariant forall j :: 0 <= j < i ==> ReusedAhead(fs, pattern, j)
        invariant i == 0 ==> pageToReplace == None && farthestUsed == -1
        invariant i > 0 ==> best < i && pageToReplace == Some(fs[best]) && farthestUsed == Distance(fs, pattern, best)
        invariant forall j :: 0 <= j < i ==> Distance(fs, pattern, j) <= farthestUsed
        invariant forall j :: 0 <= j < best ==> Distance(fs, pattern, j) < farthestUsed
      {
        var frame := fs[i];
        var window := Window(pattern, i);
        NextUseIsSliceIndex(pattern, i, frame);
        if frame !in window {
          pageToReplace := Some(frame);
          OptVictimAtBreak(fs, pattern, i);
          break;
        }
        var distance := FirstIndex(window, frame);
        if distance > farthestUsed {
          farthestUsed := distance;
          pageToReplace := Some(frame);
          best := i;
        }
        i := i + 1;
      }
      if i == |fs| {
        OptVictimAllReused(fs, pattern, best);
      }
      v := pageToReplace.value;
    }

    /** OPT: a miss on full frames removes the page `FindOptVictim` returns; the page is then appended. */
    method OptPageIn(page: T, pattern: seq<T>) returns (o: Outcome)
      requires Valid() && algorithm == OPT
      modifies this
      ensures Valid()
      ensures (frames, o) == Step(OPT, frameCount, old(frames), page, pattern)
    {
      var pageFault, eviction, replacement := false, false, false;
      if page !in frames {
        pageFault := true;
        if |frames| >= frameCount {
          eviction := true;
          var pageToReplace := FindOptVictim(pattern);
          frames := RemoveAt(frames, FirstIndex(frames, pageToReplace));
        }
        frames := frames + [page];
      }
      o := Outcome(pageFault, eviction, replacement);
      StepKeepsFramesOk(OPT, frameCount, old(frames), page, pattern);
    }

    /** `page_in` of whichever variant this instance is. */
    method PageIn(page: T, pattern: seq<T>) returns (o: Outcome)
      requires Valid()
      requires CanPageIn(algorithm, frameCount, frames, page, pattern)
      modifies this
      ensures Valid()
      ensures (frames, o) == Step(algorithm, frameCount, old(frames), page, pattern)
    {
      match algorithm
      case FIFO => o := FifoPageIn(page, pattern);
      case LRU => o := LruPageIn(page, pattern);
      case OPT => o := OptPageIn(page, pattern);
    }
  }

  /**
   The simulation loop of the front end: a fresh instance of the chosen
   variant gets every page of the pattern, in order, together with the whole
   pattern, and the outcomes are collected one per reference.
   */
  method Simulate<T(==)>(algorithm: Algorithm, frameCount: nat, pattern: seq<T>) returns (outcomes: seq<Outcome>)
    requires frameCount >= 1
    ensures outcomes == Run(algorithm, frameCount, pattern)
    ensures |outcomes| == |pattern|
  {
    var pager := new PageReplacement(algorithm, frameCount);
    outcomes := [];
    var n := 0;
    while n < |pattern|
      invariant 0 <= n <= |pattern|
      invariant pager.Valid() && pager.algorithm == algorithm && pager.frameCount == frameCount
      invariant (pager.frames, outcomes) == RunPrefix(algorithm, frameCount, pattern, n)
    {
      RunPrefixNext(algorithm, frameCount, pattern, n);
      var o := pager.PageIn(pattern[n], pattern);
      outcomes := outcomes + [o];
      n := n + 1;
    }
  }
}
