/**
  The default block selector (getSparseMissingUnusedIndex): the upper half of the largest
  gap behind a block that is being downloaded, or the start of the largest other gap.
 */
module SparseSelector {

  /** Blocks [start, end). */
  datatype Range = Range(start: nat, end: nat) {
    function Size(): int { end - start }
    function Mid(): int { (end - start) / 2 + start }
  }

  // ----- what the selector should find

  /** A maximal run of free blocks; `bits` marks the blocks that cannot be chosen. */
  ghost predicate IsRun(bits: seq<bool>, s: nat, e: nat) {
    && s < e <= |bits|
    && (forall i | s <= i < e :: !bits[i])
    && (s == 0 || bits[s - 1])
    && (e == |bits| || bits[e])
  }

  /** The run itself, or its upper half when the block before it is in use. */
  function Cut(use: seq<bool>, s: nat, e: nat): Range
    requires s <= e && s <= |use|
  {
    if 0 < s && use[s - 1] then Range((e - s) / 2 + s, e) else Range(s, e)
  }

  ghost predicate Candidate(bits: seq<bool>, use: seq<bool>, r: Range)
    requires |bits| == |use|
  {
    exists s: nat :: IsRun(bits, s, r.end) && r == Cut(use, s, r.end)
  }

  /** The block before i is finished or excluded and nobody is downloading it. */
  predicate Follows(bits: seq<bool>, use: seq<bool>, i: nat)
    requires |bits| == |use|
  {
    0 < i <= |bits| && bits[i - 1] && !use[i - 1]
  }

  /** q gives way to r: it is smaller, or equal in size and less well placed. */
  predicate Yields(bits: seq<bool>, use: seq<bool>, q: Range, r: Range)
    requires |bits| == |use|
  {
    q.Size() < r.Size() ||
    (q.Size() == r.Size() &&
     (if q.start < r.start then
        q.start != 0 && !Follows(bits, use, q.start) && Follows(bits, use, r.start)
      else
        q == r || r.start == 0 || Follows(bits, use, r.start) || !Follows(bits, use, q.start)))
  }

  /** The candidate that all others ending by `limit` give way to. */
  ghost predicate Best(bits: seq<bool>, use: seq<bool>, limit: nat, r: Range)
    requires |bits| == |use|
  {
    && Candidate(bits, use, r) && r.end <= limit
    && forall q | Candidate(bits, use, q) && q.end <= limit :: Yields(bits, use, q, r)
  }

  predicate Acceptable(bits: seq<bool>, use: seq<bool>, r: Range, blockLength: int, minSplitSize: int)
    requires |bits| == |use|
  {
    r.start == 0 || Follows(bits, use, r.start) || minSplitSize <= r.Size() * blockLength
  }

  ghost predicate SparseAnswer(bits: seq<bool>, use: seq<bool>, blockLength: int, minSplitSize: int,
                               found: bool, index: nat)
    requires |bits| == |use|
  {
    if exists r :: Candidate(bits, use, r) then
      exists r ::
        && Best(bits, use, |bits|, r)
        && found == Acceptable(bits, use, r, blockLength, minSplitSize)
        && (found ==> index == r.start)
    else !found
  }

  // ----- the selector

  method GetStartIndex(index: nat, bits: seq<bool>) returns (s: nat)
    requires index <= |bits|
    ensures index <= s <= |bits|
    ensures forall i | index <= i < s :: bits[i]
    ensures s < |bits| ==> !bits[s]
  {
    s := index;
    while s < |bits| && bits[s]
      invariant index <= s <= |bits|
      invariant forall i | index <= i < s :: bits[i]
    {
      s := s + 1;
    }
  }

  method GetEndIndex(index: nat, bits: seq<bool>) returns (e: nat)
    requires index <= |bits|
    ensures index <= e <= |bits|
    ensures forall i | index <= i < e :: !bits[i]
    ensures e < |bits| ==> bits[e]
  {
    e := index;
    while e < |bits| && !bits[e]
      invariant index <= e <= |bits|
      invariant forall i | index <= i < e :: !bits[i]
    {
      e := e + 1;
    }
  }

  /** The scan position is the start or the end of a run. */
  predicate Boundary(bits: seq<bool>, next: nat) {
    next == 0 || next == |bits| || (next < |bits| && bits[next])
  }

  /** The run found by a scan is the only one that ends in the scanned stretch. */
  lemma OnlyRun(bits: seq<bool>, next: nat, s: nat, e: nat, s': nat, e': nat)
    requires Boundary(bits, next) && next <= s < e <= |bits|
    requires forall i | next <= i < s :: bits[i]
    requires forall i | s <= i < e :: !bits[i]
    requires e < |bits| ==> bits[e]
    requires IsRun(bits, s', e') && next < e' <= e
    ensures s' == s && e' == e && IsRun(bits, s, e)
  {
    ScannedRun(bits, next, s, e);
    assert !bits[e' - 1] && s <= e' - 1;
    assert s' <= s;
    assert s <= s';
  }

  lemma ScannedRun(bits: seq<bool>, next: nat, s: nat, e: nat)
    requires Boundary(bits, next) && next <= s < e <= |bits|
    requires forall i | next <= i < s :: bits[i]
    requires forall i | s <= i < e :: !bits[i]
    requires e < |bits| ==> bits[e]
    ensures IsRun(bits, s, e)
  {
  }

  /** Extending the scan over one run. */
  lemma NextCandidate(bits: seq<bool>, use: seq<bool>, next: nat, s: nat, e: nat, q: Range)
    requires |bits| == |use|
    requires Boundary(bits, next) && next <= s < e <= |bits|
    requires forall i | next <= i < s :: bits[i]
    requires forall i | s <= i < e :: !bits[i]
    requires e < |bits| ==> bits[e]
    requires Candidate(bits, use, q) && q.end <= e
    ensures q.end <= next || q == Cut(use, s, e)
    ensures q.start < q.end
  {
    var s' :| IsRun(bits, s', q.end) && q == Cut(use, s', q.end);
    if next < q.end {
      OnlyRun(bits, next, s, e, s', q.end);
    }
  }

  lemma NoMoreCandidates(bits: seq<bool>, use: seq<bool>, next: nat, q: Range)
    requires |bits| == |use| && next <= |bits|
    requires forall i | next <= i < |bits| :: bits[i]
    requires Candidate(bits, use, q)
    ensures q.end <= next
  {
    var s' :| IsRun(bits, s', q.end) && q == Cut(use, s', q.end);
    assert !bits[q.end - 1];
  }

  /** What is known when the scan has come to `next`. */
  ghost predicate Scanned(bits: seq<bool>, use: seq<bool>, next: nat, max: Range)
    requires |bits| == |use|
  {
    if max.Size() == 0 then forall q | Candidate(bits, use, q) :: next < q.end
    else Best(bits, use, next, max)
  }

  ghost predicate Finished(bits: seq<bool>, use: seq<bool>, max: Range)
    requires |bits| == |use|
  {
    if max.Size() == 0 then forall q :: !Candidate(bits, use, q) else Best(bits, use, |bits|, max)
  }

  /** The code's own test for replacing the best range so far. */
  predicate Replaces(bits: seq<bool>, use: seq<bool>, max: Range, cur: Range)
    requires |bits| == |use| && max.start <= |bits| && cur.start <= |bits|
  {
    max.Size() < cur.Size() ||
    (max.Size() == cur.Size() && 0 < max.start && 0 < cur.start &&
     (!bits[max.start - 1] || use[max.start - 1]) && bits[cur.start - 1] && !use[cur.start - 1])
  }

  lemma BestSoFar(bits: seq<bool>, use: seq<bool>, next: nat, max: Range, s: nat, e: nat)
    requires |bits| == |use|
    requires Boundary(bits, next) && next <= s < e <= |bits|
    requires forall i | next <= i < s :: bits[i]
    requires forall i | s <= i < e :: !bits[i]
    requires e < |bits| ==> bits[e]
    requires max.start <= max.end <= next
    requires Scanned(bits, use, next, max)
    ensures var cur := Cut(use, s, e);
            Scanned(bits, use, e, if Replaces(bits, use, max, cur) then cur else max)
  {
    hide Candidate, Yields, Replaces, Cut, IsRun, Boundary, Follows;
    ScannedRun(bits, next, s, e);
    CutIsCandidate(bits, use, s, e);
    var cur := Cut(use, s, e);
    var r := if Replaces(bits, use, max, cur) then cur else max;
    forall q | Candidate(bits, use, q) && q.end <= e
      ensures Yields(bits, use, q, r)
    {
      NextCandidate(bits, use, next, s, e, q);
      TieBreak(bits, use, q, max, cur);
    }
    if r == max {
      FirstReplaces(bits, use, max, cur);
    }
  }

  lemma CutIsCandidate(bits: seq<bool>, use: seq<bool>, s: nat, e: nat)
    requires |bits| == |use| && s < e <= |bits| && IsRun(bits, s, e)
    ensures var cur := Cut(use, s, e); Candidate(bits, use, cur) && cur.end == e && s <= cur.start < e
  {
  }

  /** Anything replaces an empty range. */
  lemma FirstReplaces(bits: seq<bool>, use: seq<bool>, max: Range, cur: Range)
    requires |bits| == |use| && max.start <= max.end <= cur.start < cur.end && cur.start <= |bits|
    ensures max.Size() == 0 ==> Replaces(bits, use, max, cur)
  {
  }

  lemma TieBreak(bits: seq<bool>, use: seq<bool>, q: Range, max: Range, cur: Range)
    requires |bits| == |use| && cur.start < cur.end && cur.start <= |bits|
    requires max.start <= max.end <= cur.start && (q == cur || q.end <= cur.start)
    requires q.start < q.end
    requires q != cur ==> 0 < max.Size() && Yields(bits, use, q, max)
    ensures Yields(bits, use, q, if Replaces(bits, use, max, cur) then cur else max)
  {
  }

  method GetSparseMissingUnusedIndex(minSplitSize: int, bits: seq<bool>, use: seq<bool>, blockLength: int)
    returns (found: bool, index: nat)
    requires |bits| == |use|
    ensures SparseAnswer(bits, use, blockLength, minSplitSize, found, index)
  {
    hide Scanned, Finished, SparseAnswer;
    var blocks := |bits|;
    var maxRange := Range(0, 0);
    var nextIndex: nat := 0;
    StartOfScan(bits, use);
    while nextIndex < blocks
      invariant nextIndex <= blocks && Boundary(bits, nextIndex)
      invariant maxRange.start <= maxRange.end <= nextIndex
      invariant Scanned(bits, use, nextIndex, maxRange)
    {
      var startIndex := GetStartIndex(nextIndex, bits);
      if startIndex == blocks {
        break;
      }
      var endIndex := GetEndIndex(startIndex, bits);
      var currentRange := Range(startIndex, endIndex);
      BestSoFar(bits, use, nextIndex, maxRange, startIndex, endIndex);
      if currentRange.start > 0 {
        if use[currentRange.start - 1] {
          currentRange := currentRange.(start := currentRange.Mid());
        }
      }
      if Replaces(bits, use, maxRange, currentRange) {
        maxRange := currentRange;
      }
      nextIndex := currentRange.end;
    }
    EndOfScan(bits, use, nextIndex, maxRange);
    found, index := Decide(minSplitSize, bits, use, blockLength, maxRange);
  }

  /** The minimum-split rule, applied to the best range. */
  method Decide(minSplitSize: int, bits: seq<bool>, use: seq<bool>, blockLength: int, maxRange: Range)
    returns (found: bool, index: nat)
    requires |bits| == |use| && maxRange.start <= maxRange.end <= |bits|
    requires Finished(bits, use, maxRange)
    ensures SparseAnswer(bits, use, blockLength, minSplitSize, found, index)
  {
    hide Candidate, Yields;
    index := 0;
    if maxRange.Size() == 0 {
      return false, index;
    }
    if maxRange.start == 0 {
      return true, 0;
    }
    if (!use[maxRange.start - 1] && bits[maxRange.start - 1]) ||
       minSplitSize <= (maxRange.end - maxRange.start) * blockLength {
      return true, maxRange.start;
    }
    return false, index;
  }

  lemma StartOfScan(bits: seq<bool>, use: seq<bool>)
    requires |bits| == |use|
    ensures Scanned(bits, use, 0, Range(0, 0))
  {
  }

  lemma EndOfScan(bits: seq<bool>, use: seq<bool>, next: nat, max: Range)
    requires |bits| == |use| && next <= |bits|
    requires forall i | next <= i < |bits| :: bits[i]
    requires max.start <= max.end <= next
    requires Scanned(bits, use, next, max)
    ensures Finished(bits, use, max)
  {
    hide IsRun, Candidate;
    forall q | Candidate(bits, use, q)
      ensures q.end <= next
    {
      NoMoreCandidates(bits, use, next, q);
    }
  }

  // ----- what follows from the answer

  /** Every free block lies in a run, so there is a candidate exactly when there is a free block. */
  lemma RunAround(bits: seq<bool>, i: nat) returns (s: nat, e: nat)
    requires i < |bits| && !bits[i]
    ensures IsRun(bits, s, e) && s <= i < e
  {
    s, e := i, i + 1;
    while 0 < s && !bits[s - 1]
      invariant s <= i && forall j | s <= j <= i :: !bits[j]
    {
      s := s - 1;
    }
    while e < |bits| && !bits[e]
      invariant i < e <= |bits| && forall j | s <= j < e :: !bits[j]
    {
      e := e + 1;
    }
  }

  // ----- the answer in terms of runs alone

  /** Of two runs, one begins behind the end of the other. */
  lemma RunsAreApart(bits: seq<bool>, s: nat, e: nat, s': nat, e': nat)
    requires IsRun(bits, s, e) && IsRun(bits, s', e')
    ensures if s == s' then e == e' else if s < s' then e < s' else e' < s
  {
  }

  /** Where a candidate begins, how large it is, and whether a finished or excluded block stands before it. */
  lemma CutOf(bits: seq<bool>, use: seq<bool>, s: nat, e: nat)
    requires |bits| == |use| && IsRun(bits, s, e)
    ensures var r := Cut(use, s, e);
            && Candidate(bits, use, r) && r.end == e && s <= r.start < e
            && if 0 < s && use[s - 1] then
                 r.start - s <= e - r.start <= r.start - s + 1 && 0 < r.start && !Follows(bits, use, r.start)
               else r.start == s && (s == 0 || Follows(bits, use, s))
  {
  }

  /** What it means for runs that the candidate of one gives way to that of another. */
  lemma RunYields(bits: seq<bool>, use: seq<bool>, s: nat, e: nat, s': nat, e': nat)
    requires |bits| == |use| && IsRun(bits, s, e) && IsRun(bits, s', e')
    requires Yields(bits, use, Cut(use, s', e'), Cut(use, s, e))
    ensures var most := if 0 < s && use[s - 1] then (e - s + 1) / 2 else e - s;
            var other := if 0 < s' && use[s' - 1] then (e' - s' + 1) / 2 else e' - s';
            && other <= most
            && (other == most && s' != s ==>
                  if 0 < s && use[s - 1] then s < s' && use[s' - 1] else s < s' || (0 < s' && use[s' - 1]))
  {
    CutOf(bits, use, s, e);
    CutOf(bits, use, s', e');
    RunsAreApart(bits, s, e, s', e');
    hide Cut, Follows, Candidate, IsRun;
  }

  /** The run of the best candidate: the candidates of all others give way to it. */
  lemma ChosenRun(bits: seq<bool>, use: seq<bool>, blockLength: int, minSplitSize: int, found: bool, index: nat)
    returns (s: nat, e: nat)
    requires |bits| == |use| && SparseAnswer(bits, use, blockLength, minSplitSize, found, index)
    requires exists i | 0 <= i < |bits| :: !bits[i]
    ensures IsRun(bits, s, e)
    ensures forall s': nat, e': nat | IsRun(bits, s', e') :: Yields(bits, use, Cut(use, s', e'), Cut(use, s, e))
    ensures found == Acceptable(bits, use, Cut(use, s, e), blockLength, minSplitSize)
    ensures found ==> index == Cut(use, s, e).start
  {
    var i :| 0 <= i < |bits| && !bits[i];
    s, e := RunAround(bits, i);
    CutOf(bits, use, s, e);
    hide Acceptable, Cut, Follows, Yields;
    var r :| && Best(bits, use, |bits|, r) && found == Acceptable(bits, use, r, blockLength, minSplitSize)
             && (found ==> index == r.start);
    e := r.end;
    s :| IsRun(bits, s, e) && r == Cut(use, s, e);
    forall s': nat, e': nat | IsRun(bits, s', e')
      ensures Yields(bits, use, Cut(use, s', e'), r)
    {
      CutOf(bits, use, s', e');
    }
  }

  /**
    What the selector does with a file that has a free block: a run offers all its blocks or, behind a block
    in use, the upper half of them. The run that offers most is chosen, and of several the first one that
    offers all its blocks, or else the first. A half is only handed out if it makes minSplitSize bytes.
   */
  lemma SparseByRuns(bits: seq<bool>, use: seq<bool>, blockLength: int, minSplitSize: int, found: bool, index: nat)
    returns (s: nat, e: nat)
    requires |bits| == |use| && SparseAnswer(bits, use, blockLength, minSplitSize, found, index)
    requires exists i | 0 <= i < |bits| :: !bits[i]
    ensures IsRun(bits, s, e)
    ensures forall s': nat, e': nat | IsRun(bits, s', e') ::
              var most := if 0 < s && use[s - 1] then (e - s + 1) / 2 else e - s;
              var other := if 0 < s' && use[s' - 1] then (e' - s' + 1) / 2 else e' - s';
              && other <= most
              && (other == most && s' != s ==>
                    if 0 < s && use[s - 1] then s < s' && use[s' - 1] else s < s' || (0 < s' && use[s' - 1]))
    ensures found <==> s == 0 || !use[s - 1] || minSplitSize <= (e - s + 1) / 2 * blockLength
    ensures found ==> if 0 < s && use[s - 1] then s <= index < e && index - s <= e - index <= index - s + 1 else index == s
  {
    hide SparseAnswer, Cut, Follows, Candidate, Yields, Acceptable;
    s, e := ChosenRun(bits, use, blockLength, minSplitSize, found, index);
    CutOf(bits, use, s, e);
    AcceptableRun(bits, use, s, e, blockLength, minSplitSize);
    AllRunsYield(bits, use, s, e);
  }

  lemma AllRunsYield(bits: seq<bool>, use: seq<bool>, s: nat, e: nat)
    requires |bits| == |use| && IsRun(bits, s, e)
    requires forall s': nat, e': nat | IsRun(bits, s', e') :: Yields(bits, use, Cut(use, s', e'), Cut(use, s, e))
    ensures forall s': nat, e': nat | IsRun(bits, s', e') ::
              var most := if 0 < s && use[s - 1] then (e - s + 1) / 2 else e - s;
              var other := if 0 < s' && use[s' - 1] then (e' - s' + 1) / 2 else e' - s';
              && other <= most
              && (other == most && s' != s ==>
                    if 0 < s && use[s - 1] then s < s' && use[s' - 1] else s < s' || (0 < s' && use[s' - 1]))
  {
    forall s': nat, e': nat | IsRun(bits, s', e')
      ensures var most := if 0 < s && use[s - 1] then (e - s + 1) / 2 else e - s;
              var other := if 0 < s' && use[s' - 1] then (e' - s' + 1) / 2 else e' - s';
              && other <= most
              && (other == most && s' != s ==>
                    if 0 < s && use[s - 1] then s < s' && use[s' - 1] else s < s' || (0 < s' && use[s' - 1]))
    {
      hide Yields, Cut;
      RunYields(bits, use, s, e, s', e');
    }
  }

  lemma AcceptableRun(bits: seq<bool>, use: seq<bool>, s: nat, e: nat, blockLength: int, minSplitSize: int)
    requires |bits| == |use| && IsRun(bits, s, e)
    ensures Acceptable(bits, use, Cut(use, s, e), blockLength, minSplitSize) <==>
            s == 0 || !use[s - 1] || minSplitSize <= (e - s + 1) / 2 * blockLength
  {
    CutOf(bits, use, s, e);
    if 0 < s && use[s - 1] {
      assert Cut(use, s, e).Size() == (e - s + 1) / 2;
    }
    hide Cut, Follows, IsRun, Candidate;
  }

  /** An index that is handed out is a free block. */
  lemma SparseIsSafe(bits: seq<bool>, use: seq<bool>, blockLength: int, minSplitSize: int, index: nat)
    requires |bits| == |use|
    requires SparseAnswer(bits, use, blockLength, minSplitSize, true, index)
    ensures index < |bits| && !bits[index]
  {
    var r :| Best(bits, use, |bits|, r) && index == r.start;
  }

  /** With nothing in use, or no more than one block to split off, a free block is always found. */
  lemma SparseIsComplete(bits: seq<bool>, use: seq<bool>, blockLength: int, minSplitSize: int, found: bool, index: nat)
    requires |bits| == |use| && 0 < blockLength
    requires SparseAnswer(bits, use, blockLength, minSplitSize, found, index)
    requires minSplitSize <= blockLength || forall i | 0 <= i < |use| :: !use[i]
    ensures found <==> exists i | 0 <= i < |bits| :: !bits[i]
  {
    if i :| 0 <= i < |bits| && !bits[i] {
      var s, e := RunAround(bits, i);
      assert Candidate(bits, use, Cut(use, s, e));
      var r :| Best(bits, use, |bits|, r) && found == Acceptable(bits, use, r, blockLength, minSplitSize);
      BestIsAcceptable(bits, use, r, blockLength, minSplitSize);
    } else {
      if found {
        SparseIsSafe(bits, use, blockLength, minSplitSize, index);
      }
    }
  }

  lemma BestIsAcceptable(bits: seq<bool>, use: seq<bool>, r: Range, blockLength: int, minSplitSize: int)
    requires |bits| == |use| && 0 < blockLength && Candidate(bits, use, r)
    requires minSplitSize <= blockLength || forall i | 0 <= i < |use| :: !use[i]
    ensures Acceptable(bits, use, r, blockLength, minSplitSize)
  {
    if minSplitSize <= blockLength {
      assert blockLength <= r.Size() * blockLength;
    }
  }

  /** The answer is determined: ties are broken the same way every time. */
  lemma SparseIsDetermined(bits: seq<bool>, use: seq<bool>, r: Range, r': Range)
    requires |bits| == |use| && Best(bits, use, |bits|, r) && Best(bits, use, |bits|, r')
    ensures r == r'
  {
    assert Yields(bits, use, r, r') && Yields(bits, use, r', r);
  }
}
