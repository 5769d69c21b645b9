/** The geometric and the in-order block selectors (libaria2/src/BitfieldMan.cc). */
module OtherSelectors {
  import opened SparseSelector

  // ----- windows of the geometric selector

  /** base^k: the end of window k, counted from the offset. */
  function WindowEnd(base: real, k: nat): real {
    if k == 0 then 1.0 else WindowEnd(base, k - 1) * base
  }

  function WindowStart(base: real, k: nat): real {
    if k == 0 then 0.0 else WindowEnd(base, k - 1)
  }

  /** Block i lies in window k. */
  predicate InWindow(base: real, offset: nat, k: nat, i: nat) {
    WindowStart(base, k).Floor + offset <= i < WindowEnd(base, k).Floor + offset
  }

  lemma Product(a: real, b: real)
    requires a >= 0.0 && b >= 0.0
    ensures a * b >= 0.0
  {
  }

  lemma Distribute(a: real, b: real, c: real)
    ensures (a + b) * c == a * c + b * c
  {
  }

  lemma Grows(e: real, base: real)
    requires e >= 1.0 && base > 1.0
    ensures e * base >= e + (base - 1.0)
  {
    var a, b := e - 1.0, base - 1.0;
    Product(a, b);
    Distribute(a, 1.0, base);
    Distribute(b, 1.0, a);
    assert b * a == a * b && base * a == a * base;
  }

  lemma {:induction false} AtLeastOne(base: real, k: nat)
    requires base > 1.0
    ensures WindowEnd(base, k) >= 1.0
  {
    if k != 0 {
      AtLeastOne(base, k - 1);
      Grows(WindowEnd(base, k - 1), base);
    }
  }

  /** Powers of a base above 1 grow at least linearly. */
  lemma {:induction false} Growth(base: real, k: nat)
    requires base > 1.0
    ensures WindowEnd(base, k) >= 1.0 + k as real * (base - 1.0)
  {
    if k != 0 {
      Growth(base, k - 1);
      AtLeastOne(base, k - 1);
      Grows(WindowEnd(base, k - 1), base);
      Distribute((k - 1) as real, 1.0, base - 1.0);
    }
  }

  lemma {:induction false} WindowOrder(base: real, k: nat)
    requires base > 1.0
    ensures 0.0 <= WindowStart(base, k) <= WindowEnd(base, k)
  {
    AtLeastOne(base, k);
    if k != 0 {
      AtLeastOne(base, k - 1);
      Grows(WindowEnd(base, k - 1), base);
    }
  }

  /** Some window ends behind any given block. */
  lemma Archimedes(base: real, n: nat) returns (k: nat)
    requires base > 1.0
    ensures n as real <= WindowEnd(base, k)
  {
    var d := base - 1.0;
    var q := n as real / d;
    k := q.Floor + 1;
    Growth(base, k);
    Quotient(n as real, d);
    Distribute(k as real, -q, d);
    Product(k as real - q, d);
  }

  lemma Quotient(n: real, d: real)
    requires d > 0.0
    ensures (n / d) * d == n
    ensures n >= 0.0 ==> n / d >= 0.0
  {
  }

  lemma {:induction false} EndsGrow(base: real, j: nat, k: nat)
    requires base > 1.0 && j <= k
    ensures WindowEnd(base, j) <= WindowEnd(base, k)
    decreases k - j
  {
    if j < k {
      EndsGrow(base, j, k - 1);
      WindowOrder(base, k);
    }
  }

  /** The windows tile the blocks from the offset on: every block lies in one of them ... */
  lemma WindowsCover(base: real, offset: nat, i: nat) returns (k: nat)
    requires base > 1.0 && offset <= i
    ensures InWindow(base, offset, k, i)
  {
    var last := Archimedes(base, i + 1 - offset);
    k := 0;
    while WindowEnd(base, k).Floor + offset <= i
      invariant WindowStart(base, k).Floor + offset <= i
      invariant k <= last
      decreases last - k
    {
      if k == last {
        assert false;
      }
      k := k + 1;
    }
  }

  /** ... and in no other. */
  lemma WindowsAreDisjoint(base: real, offset: nat, i: nat, j: nat, k: nat)
    requires base > 1.0 && InWindow(base, offset, j, i) && InWindow(base, offset, k, i)
    ensures j == k
  {
    hide WindowEnd, WindowStart;
    if j < k {
      EndsBeforeStart(base, j, k);
    } else if k < j {
      EndsBeforeStart(base, k, j);
    }
  }

  lemma EndsBeforeStart(base: real, j: nat, k: nat)
    requires base > 1.0 && j < k
    ensures WindowEnd(base, j).Floor <= WindowStart(base, k).Floor
  {
    hide WindowEnd;
    EndsGrow(base, j, k - 1);
  }

  // ----- the geometric selector

  /** i is a free block of [lo, hi) with neither a free nor an in-use block of it before i. */
  predicate Hit(bits: seq<bool>, use: seq<bool>, lo: nat, hi: int, i: nat)
    requires |bits| == |use|
  {
    && lo <= i < hi && i < |bits| && !bits[i] && !use[i]
    && forall j | lo <= j < i :: bits[j] && !use[j]
  }

  ghost predicate WindowHit(bits: seq<bool>, use: seq<bool>, base: real, offset: nat, k: nat, i: nat)
    requires |bits| == |use| && base > 1.0
  {
    WindowOrder(base, k);
    Hit(bits, use, WindowStart(base, k).Floor + offset, WindowEnd(base, k).Floor + offset, i)
  }

  ghost predicate NoHit(bits: seq<bool>, use: seq<bool>, base: real, offset: nat, k: nat)
    requires |bits| == |use| && base > 1.0
  {
    forall i: nat :: !WindowHit(bits, use, base, offset, k, i)
  }

  /** The hit of the first window that has one, or else the sparse selector's answer. */
  ghost predicate GeomAnswer(bits: seq<bool>, use: seq<bool>, blockLength: int, minSplitSize: int,
                             base: real, offset: nat, found: bool, index: nat)
    requires |bits| == |use| && base > 1.0
  {
    || (found && exists k: nat ::
          WindowHit(bits, use, base, offset, k, index) && forall j: nat | j < k :: NoHit(bits, use, base, offset, j))
    || ((forall k: nat :: NoHit(bits, use, base, offset, k)) &&
        SparseAnswer(bits, use, blockLength, minSplitSize, found, index))
  }

  method SearchWindow(bits: seq<bool>, use: seq<bool>, lo: nat, hi: nat) returns (index: nat)
    requires |bits| == |use| && hi <= |bits|
    ensures index < |bits| ==> Hit(bits, use, lo, hi, index)
    ensures index >= |bits| ==> forall i: nat :: !Hit(bits, use, lo, hi, i)
  {
    index := |bits|;
    var i := lo;
    while i < hi
      invariant lo <= i && index == |bits|
      invariant forall j | lo <= j < i && j < hi :: bits[j] && !use[j]
    {
      if use[i] {
        break;
      } else if !bits[i] {
        index := i;
        break;
      }
      i := i + 1;
    }
  }

  method GetGeomMissingUnusedIndex(minSplitSize: int, bits: seq<bool>, use: seq<bool>, blockLength: int,
                                   base: real, offsetIndex: nat)
    returns (found: bool, index: nat)
    requires |bits| == |use| && base > 1.0
    ensures GeomAnswer(bits, use, blockLength, minSplitSize, base, offsetIndex, found, index)
  {
    hide Hit, SparseAnswer, WindowEnd, WindowStart;
    FirstWindow(base);
    var blocks := |bits|;
    var start, end := 0.0, 1.0;
    ghost var k: nat := 0;
    ghost var last := Archimedes(base, blocks);
    while start + offsetIndex as real < blocks as real
      invariant start == WindowStart(base, k) && end == WindowEnd(base, k)
      invariant forall j: nat | j < k :: NoHit(bits, use, base, offsetIndex, j)
      decreases last + 1 - k
    {
      hide NoHit, WindowHit;
      WindowOrder(base, k);
      index := SearchFrom(bits, use, start, end, base, offsetIndex, k);
      if index < blocks {
        return true, index;
      }
      LastWindow(base, last, k, blocks);
      NextWindow(base, k);
      start, end := end, end * base;
      k := k + 1;
    }
    NoWindowsLeft(bits, use, base, offsetIndex, k);
    found, index := GetSparseMissingUnusedIndex(minSplitSize, bits, use, blockLength);
  }

  lemma FirstWindow(base: real)
    ensures WindowStart(base, 0) == 0.0 && WindowEnd(base, 0) == 1.0
  {
  }

  lemma NextWindow(base: real, k: nat)
    ensures WindowStart(base, k + 1) == WindowEnd(base, k) && WindowEnd(base, k + 1) == WindowEnd(base, k) * base
  {
  }

  /** The loop body: window k is [start, end) behind the offset. */
  method SearchFrom(bits: seq<bool>, use: seq<bool>, start: real, end: real, ghost base: real, offset: nat, ghost k: nat)
    returns (index: nat)
    requires |bits| == |use| && base > 1.0
    requires 0.0 <= start == WindowStart(base, k) <= end == WindowEnd(base, k)
    ensures index < |bits| ==> WindowHit(bits, use, base, offset, k, index)
    ensures index >= |bits| ==> NoHit(bits, use, base, offset, k)
  {
    hide WindowEnd, WindowStart;
    var lo := (start + offset as real).Floor;
    var hi := (end + offset as real).Floor;
    assert lo == start.Floor + offset && hi == end.Floor + offset;
    index := SearchWindow(bits, use, lo, if |bits| < hi then |bits| else hi);
    if index >= |bits| {
      ShortWindow(bits, use, lo, hi, if |bits| < hi then |bits| else hi);
    }
  }

  lemma ShortWindow(bits: seq<bool>, use: seq<bool>, lo: nat, hi: nat, end: nat)
    requires |bits| == |use| && end == if |bits| < hi then |bits| else hi
    requires forall i: nat :: !Hit(bits, use, lo, end, i)
    ensures forall i: nat :: !Hit(bits, use, lo, hi, i)
  {
    forall i: nat
      ensures !Hit(bits, use, lo, hi, i)
    {
      assert !Hit(bits, use, lo, end, i);
    }
  }

  lemma LastWindow(base: real, last: nat, k: nat, n: nat)
    requires base > 1.0 && n as real <= WindowEnd(base, last) && WindowStart(base, k) < n as real
    ensures k <= last
  {
    if last < k {
      EndsGrow(base, last, k - 1);
    }
  }

  lemma NoWindowsLeft(bits: seq<bool>, use: seq<bool>, base: real, offset: nat, k: nat)
    requires |bits| == |use| && base > 1.0
    requires WindowStart(base, k) + offset as real >= |bits| as real
    requires forall j: nat | j < k :: NoHit(bits, use, base, offset, j)
    ensures forall j: nat :: NoHit(bits, use, base, offset, j)
  {
    forall j: nat, i: nat | k <= j
      ensures !WindowHit(bits, use, base, offset, j, i)
    {
      if 0 < k < j {
        EndsGrow(base, k - 1, j - 1);
      } else if k == 0 && 0 < j {
        AtLeastOne(base, j - 1);
      }
    }
  }

  lemma GeomIsSafe(bits: seq<bool>, use: seq<bool>, blockLength: int, minSplitSize: int, base: real, offset: nat, index: nat)
    requires |bits| == |use| && base > 1.0
    requires GeomAnswer(bits, use, blockLength, minSplitSize, base, offset, true, index)
    ensures index < |bits| && !bits[index]
  {
    hide SparseAnswer, WindowEnd, NoHit;
    if SparseAnswer(bits, use, blockLength, minSplitSize, true, index) {
      SparseIsSafe(bits, use, blockLength, minSplitSize, index);
    } else {
      var k: nat :| WindowHit(bits, use, base, offset, k, index);
    }
  }

  /** The first block of window k that is not finished or excluded, or that is in use, is block i. */
  ghost predicate Leads(bits: seq<bool>, use: seq<bool>, base: real, offset: nat, k: nat, i: nat)
    requires |bits| == |use|
  {
    && WindowStart(base, k).Floor + offset <= i < WindowEnd(base, k).Floor + offset && i < |bits| && !(bits[i] && !use[i])
    && forall j: nat | WindowStart(base, k).Floor + offset <= j < i :: bits[j] && !use[j]
  }

  /**
    The windows in which a free block comes before any block in use: if there is one, that block of the first
    such window is handed out, and otherwise the sparse selector decides.
   */
  lemma GeomByWindows(bits: seq<bool>, use: seq<bool>, blockLength: int, minSplitSize: int,
                      base: real, offset: nat, found: bool, index: nat)
    requires |bits| == |use| && base > 1.0
    requires GeomAnswer(bits, use, blockLength, minSplitSize, base, offset, found, index)
    ensures if exists k: nat, i: nat :: Leads(bits, use, base, offset, k, i) && !use[i] then
              found && exists k: nat :: Leads(bits, use, base, offset, k, index) && !bits[index] && !use[index] &&
                                        forall k': nat, i: nat | k' < k && Leads(bits, use, base, offset, k', i) :: use[i]
            else SparseAnswer(bits, use, blockLength, minSplitSize, found, index)
  {
    hide SparseAnswer, GeomAnswer;
    forall k: nat, i: nat
      ensures WindowHit(bits, use, base, offset, k, i) <==> Leads(bits, use, base, offset, k, i) && !use[i]
    {
      LeadsIsHit(bits, use, base, offset, k, i);
    }
    HitsDecide(bits, use, blockLength, minSplitSize, base, offset, found, index);
  }

  lemma LeadsIsHit(bits: seq<bool>, use: seq<bool>, base: real, offset: nat, k: nat, i: nat)
    requires |bits| == |use| && base > 1.0
    ensures WindowHit(bits, use, base, offset, k, i) <==> Leads(bits, use, base, offset, k, i) && !use[i]
  {
    hide WindowEnd, WindowStart;
    WindowOrder(base, k);
  }

  lemma HitsDecide(bits: seq<bool>, use: seq<bool>, blockLength: int, minSplitSize: int,
                   base: real, offset: nat, found: bool, index: nat)
    requires |bits| == |use| && base > 1.0
    requires GeomAnswer(bits, use, blockLength, minSplitSize, base, offset, found, index)
    ensures if exists k: nat, i: nat :: WindowHit(bits, use, base, offset, k, i) then
              found && exists k: nat :: WindowHit(bits, use, base, offset, k, index) &&
                                        forall k': nat, i: nat | k' < k :: !WindowHit(bits, use, base, offset, k', i)
            else SparseAnswer(bits, use, blockLength, minSplitSize, found, index)
  {
    hide SparseAnswer, WindowHit;
    if k: nat, i: nat :| WindowHit(bits, use, base, offset, k, i) {
      assert !NoHit(bits, use, base, offset, k);
      var first: nat :| WindowHit(bits, use, base, offset, first, index) && forall j: nat | j < first :: NoHit(bits, use, base, offset, j);
      forall k': nat, i: nat | k' < first
        ensures !WindowHit(bits, use, base, offset, k', i)
      {
        assert NoHit(bits, use, base, offset, k');
      }
    } else {
      assert forall k: nat :: NoHit(bits, use, base, offset, k);
    }
  }

  lemma GeomIsComplete(bits: seq<bool>, use: seq<bool>, blockLength: int, minSplitSize: int,
                       base: real, offset: nat, found: bool, index: nat)
    requires |bits| == |use| && base > 1.0 && 0 < blockLength
    requires GeomAnswer(bits, use, blockLength, minSplitSize, base, offset, found, index)
    requires minSplitSize <= blockLength || forall i | 0 <= i < |use| :: !use[i]
    ensures found <==> exists i | 0 <= i < |bits| :: !bits[i]
  {
    hide SparseAnswer, WindowHit, NoHit;
    if SparseAnswer(bits, use, blockLength, minSplitSize, found, index) {
      SparseIsComplete(bits, use, blockLength, minSplitSize, found, index);
    } else {
      GeomIsSafe(bits, use, blockLength, minSplitSize, base, offset, index);
    }
  }

  // ----- the in-order selector

  predicate Available(bits: seq<bool>, use: seq<bool>, i: nat)
    requires |bits| == |use|
  {
    i < |bits| && !bits[i] && !use[i]
  }

  /** An available block behind one that is not. */
  predicate RunStart(bits: seq<bool>, use: seq<bool>, s: nat)
    requires |bits| == |use|
  {
    0 < s && Available(bits, use, s) && !Available(bits, use, s - 1)
  }

  /** Every block of [s, j] is available. */
  predicate AllAvailable(bits: seq<bool>, use: seq<bool>, s: nat, j: int)
    requires |bits| == |use|
  {
    forall i: nat | s <= i <= j :: Available(bits, use, i)
  }

  /** The blocks [s, j] make minSplitSize bytes. */
  predicate Enough(blockLength: int, minSplitSize: int, s: nat, j: nat) {
    minSplitSize <= (j - s + 1) * blockLength
  }

  /** The index taken from the run that starts at s: s itself, or the block that completes minSplitSize bytes. */
  predicate TakenFrom(bits: seq<bool>, use: seq<bool>, blockLength: int, minSplitSize: int, s: nat, index: nat)
    requires |bits| == |use|
  {
    if Follows(bits, use, s) then index == s
    else
      && s <= index < |bits|
      && AllAvailable(bits, use, s, index)
      && Enough(blockLength, minSplitSize, s, index)
      && (forall j: nat | s <= j < index :: !Enough(blockLength, minSplitSize, s, j))
  }

  ghost predicate Refused(bits: seq<bool>, use: seq<bool>, blockLength: int, minSplitSize: int, s: nat)
    requires |bits| == |use|
  {
    forall j: nat :: !TakenFrom(bits, use, blockLength, minSplitSize, s, j)
  }

  /** The first block if it is available, else what is taken from the first run that is not refused. */
  ghost predicate InorderAnswer(bits: seq<bool>, use: seq<bool>, blockLength: int, minSplitSize: int,
                                startIndex: nat, lastIndex: nat, found: bool, index: nat)
    requires |bits| == |use|
  {
    if Available(bits, use, startIndex) then found && index == startIndex
    else if found then
      exists s: nat ::
        && startIndex < s < lastIndex
        && RunStart(bits, use, s) && TakenFrom(bits, use, blockLength, minSplitSize, s, index)
        && forall t: nat | startIndex < t < s && RunStart(bits, use, t) :: Refused(bits, use, blockLength, minSplitSize, t)
    else
      forall t: nat | startIndex < t < lastIndex && RunStart(bits, use, t) :: Refused(bits, use, blockLength, minSplitSize, t)
  }

  /** The inner loop: how far the run that starts at i goes, or the block at which it suffices. */
  method FreeSpace(minSplitSize: int, bits: seq<bool>, use: seq<bool>, blockLength: int, i: nat)
    returns (found: bool, j: nat)
    requires |bits| == |use| && i < |bits| && !Follows(bits, use, i)
    ensures i <= j
    ensures found ==> TakenFrom(bits, use, blockLength, minSplitSize, i, j)
    ensures !found ==>
              && Refused(bits, use, blockLength, minSplitSize, i)
              && !Available(bits, use, j)
              && AllAvailable(bits, use, i, j - 1)
  {
    hide Enough;
    j := i;
    while j < |bits|
      invariant i <= j <= |bits|
      invariant AllAvailable(bits, use, i, j - 1)
      invariant forall k: nat | i <= k < j :: !Enough(blockLength, minSplitSize, i, k)
    {
      if bits[j] || use[j] {
        break;
      }
      if Enough(blockLength, minSplitSize, i, j) {
        return true, j;
      }
      j := j + 1;
    }
    found := false;
    forall k: nat
      ensures !TakenFrom(bits, use, blockLength, minSplitSize, i, k)
    {
      assert j <= k && AllAvailable(bits, use, i, k) ==> Available(bits, use, j);
    }
  }

  method GetInorderMissingUnusedIndex(startIndex: nat, lastIndex: nat, minSplitSize: int,
                                      bits: seq<bool>, use: seq<bool>, blockLength: int)
    returns (found: bool, index: nat)
    requires |bits| == |use| && startIndex < |bits| && lastIndex <= |bits|
    ensures InorderAnswer(bits, use, blockLength, minSplitSize, startIndex, lastIndex, found, index)
  {
    if !bits[startIndex] && !use[startIndex] {
      return true, startIndex;
    }
    hide TakenFrom, Refused;
    var i := startIndex + 1;
    while i < lastIndex
      invariant startIndex < i
      invariant !Available(bits, use, i - 1)
      invariant forall t: nat | startIndex < t < i && RunStart(bits, use, t) :: Refused(bits, use, blockLength, minSplitSize, t)
    {
      if !bits[i] && !use[i] {
        if !use[i - 1] && bits[i - 1] {
          TakenAtOnce(bits, use, blockLength, minSplitSize, i);
          return true, i;
        }
        var enough, j := FreeSpace(minSplitSize, bits, use, blockLength, i);
        if enough {
          return true, j;
        }
        i := j + 1;
      } else {
        i := i + 1;
      }
    }
    return false, 0;
  }

  lemma TakenAtOnce(bits: seq<bool>, use: seq<bool>, blockLength: int, minSplitSize: int, s: nat)
    requires |bits| == |use| && Follows(bits, use, s)
    ensures TakenFrom(bits, use, blockLength, minSplitSize, s, s)
  {
  }

  lemma InorderIsSafe(bits: seq<bool>, use: seq<bool>, blockLength: int, minSplitSize: int,
                      startIndex: nat, lastIndex: nat, index: nat)
    requires |bits| == |use|
    requires InorderAnswer(bits, use, blockLength, minSplitSize, startIndex, lastIndex, true, index)
    ensures index < |bits| && !bits[index] && !use[index]
  {
    if !Available(bits, use, startIndex) {
      var s: nat :| RunStart(bits, use, s) && TakenFrom(bits, use, blockLength, minSplitSize, s, index);
      assert Available(bits, use, index);
    }
  }

  /**
    The answer in terms of blocks: the first block of the range; or a free block behind one that is finished
    or excluded and idle; or the block that completes minSplitSize bytes of free blocks behind one in use.
    Every run of free blocks in between begins behind a block in use and is too short.
   */
  lemma InorderByBlocks(bits: seq<bool>, use: seq<bool>, blockLength: int, minSplitSize: int,
                        startIndex: nat, lastIndex: nat, found: bool, index: nat)
    returns (s: nat)
    requires |bits| == |use| && startIndex < |bits| && lastIndex <= |bits|
    requires InorderAnswer(bits, use, blockLength, minSplitSize, startIndex, lastIndex, found, index)
    ensures !bits[startIndex] && !use[startIndex] ==> found && index == s == startIndex
    ensures bits[startIndex] || use[startIndex] ==>
              if found then
                && startIndex < s < lastIndex && s <= index < |bits|
                && (bits[s - 1] || use[s - 1]) && (forall i | s <= i <= index :: !bits[i] && !use[i])
                && (if use[s - 1] then
                      && minSplitSize <= (index - s + 1) * blockLength
                      && (s < index ==> (index - s) * blockLength < minSplitSize)
                    else index == s)
              else s == lastIndex
    ensures forall t: nat, j: nat | startIndex < t < s && t <= j && (bits[t - 1] || use[t - 1]) && AllAvailable(bits, use, t, j) ::
              use[t - 1] && (j - t + 1) * blockLength < minSplitSize
  {
    hide Enough;
    s := lastIndex;
    if !bits[startIndex] && !use[startIndex] {
      s := startIndex;
    } else if found {
      s :| startIndex < s < lastIndex && RunStart(bits, use, s) && TakenFrom(bits, use, blockLength, minSplitSize, s, index)
           && forall t: nat | startIndex < t < s && RunStart(bits, use, t) :: Refused(bits, use, blockLength, minSplitSize, t);
      TakenBlocks(bits, use, blockLength, minSplitSize, s, index);
    }
    forall t: nat, j: nat | startIndex < t < s && t <= j && (bits[t - 1] || use[t - 1]) && AllAvailable(bits, use, t, j)
      ensures use[t - 1] && (j - t + 1) * blockLength < minSplitSize
    {
      assert Available(bits, use, t);
      RefusedBlocks(bits, use, blockLength, minSplitSize, t, j);
    }
  }

  lemma TakenBlocks(bits: seq<bool>, use: seq<bool>, blockLength: int, minSplitSize: int, s: nat, index: nat)
    requires |bits| == |use| && RunStart(bits, use, s) && TakenFrom(bits, use, blockLength, minSplitSize, s, index)
    ensures s <= index < |bits| && (bits[s - 1] || use[s - 1]) && forall i | s <= i <= index :: !bits[i] && !use[i]
    ensures if use[s - 1] then
              minSplitSize <= (index - s + 1) * blockLength && (s < index ==> (index - s) * blockLength < minSplitSize)
            else index == s
  {
    if use[s - 1] {
      forall i | s <= i <= index
        ensures !bits[i] && !use[i]
      {
        assert Available(bits, use, i);
      }
      assert s < index ==> !Enough(blockLength, minSplitSize, s, index - 1);
    }
  }

  lemma RefusedBlocks(bits: seq<bool>, use: seq<bool>, blockLength: int, minSplitSize: int, t: nat, j: nat)
    requires |bits| == |use| && RunStart(bits, use, t) && Refused(bits, use, blockLength, minSplitSize, t)
    requires t <= j && AllAvailable(bits, use, t, j)
    ensures use[t - 1] && (j - t + 1) * blockLength < minSplitSize
  {
    assert !TakenFrom(bits, use, blockLength, minSplitSize, t, t);
    if Enough(blockLength, minSplitSize, t, j) {
      var k := CompletedAt(bits, use, blockLength, minSplitSize, t, j);
    }
  }

  lemma CompletedAt(bits: seq<bool>, use: seq<bool>, blockLength: int, minSplitSize: int, t: nat, j: nat) returns (k: nat)
    requires |bits| == |use| && t <= j && AllAvailable(bits, use, t, j) && Enough(blockLength, minSplitSize, t, j)
    requires !Follows(bits, use, t)
    ensures TakenFrom(bits, use, blockLength, minSplitSize, t, k)
  {
    hide Enough;
    k := t;
    while !Enough(blockLength, minSplitSize, t, k)
      invariant t <= k <= j && forall i: nat | t <= i < k :: !Enough(blockLength, minSplitSize, t, i)
      decreases j - k
    {
      k := k + 1;
    }
    assert Available(bits, use, k);
  }

  /** The search cannot both fail and succeed. */
  lemma InorderIsExclusive(bits: seq<bool>, use: seq<bool>, blockLength: int, minSplitSize: int,
                           startIndex: nat, lastIndex: nat, i: nat, j: nat)
    requires |bits| == |use| && InorderAnswer(bits, use, blockLength, minSplitSize, startIndex, lastIndex, false, i)
    ensures !InorderAnswer(bits, use, blockLength, minSplitSize, startIndex, lastIndex, true, j)
  {
    hide TakenFrom;
  }

  /** The blocks a search of [startIndex, lastIndex) looks at: the first one even if the range is empty. */
  predicate Searched(startIndex: nat, lastIndex: nat, i: nat) {
    i == startIndex || startIndex <= i < lastIndex
  }

  /** With no more than one block to split off, an available block among them is always found. */
  lemma InorderIsComplete(bits: seq<bool>, use: seq<bool>, blockLength: int, minSplitSize: int,
                          startIndex: nat, lastIndex: nat, found: bool, index: nat)
    requires |bits| == |use| && minSplitSize <= blockLength
    requires InorderAnswer(bits, use, blockLength, minSplitSize, startIndex, lastIndex, found, index)
    ensures found <==> exists i: nat :: Searched(startIndex, lastIndex, i) && Available(bits, use, i)
    ensures found ==> Searched(startIndex, lastIndex, index)
  {
    hide TakenFrom;
    if found {
      if !Available(bits, use, startIndex) {
        var s: nat :| startIndex < s < lastIndex && RunStart(bits, use, s) && TakenFrom(bits, use, blockLength, minSplitSize, s, index);
        EnoughAtOnce(bits, use, blockLength, minSplitSize, s, index);
      }
      assert Searched(startIndex, lastIndex, index) && Available(bits, use, index);
    } else {
      forall i: nat | Searched(startIndex, lastIndex, i)
        ensures !Available(bits, use, i)
      {
        if Available(bits, use, i) {
          var s := RunBefore(bits, use, startIndex, i);
          EnoughAtOnce(bits, use, blockLength, minSplitSize, s, s);
        }
      }
    }
  }

  /** With no more than one block to split off, a run yields its first block. */
  lemma EnoughAtOnce(bits: seq<bool>, use: seq<bool>, blockLength: int, minSplitSize: int, s: nat, index: nat)
    requires |bits| == |use| && minSplitSize <= blockLength && Available(bits, use, s)
    ensures TakenFrom(bits, use, blockLength, minSplitSize, s, index) <==> index == s
  {
    assert (s - s + 1) * blockLength == blockLength;
    assert Enough(blockLength, minSplitSize, s, s);
  }

  lemma RunBefore(bits: seq<bool>, use: seq<bool>, startIndex: nat, i: nat) returns (s: nat)
    requires |bits| == |use| && startIndex < i && !Available(bits, use, startIndex) && Available(bits, use, i)
    ensures startIndex < s <= i && RunStart(bits, use, s)
  {
    s := i;
    while Available(bits, use, s - 1)
      invariant startIndex < s <= i && Available(bits, use, s)
      decreases s
    {
      s := s - 1;
    }
  }

  // ----- the ranged form

  /**
    The ranged form is documented to search [startIndex, endIndex). It can nevertheless answer with a
    block at or behind endIndex: the first one of an empty range, or the one that completes
    minSplitSize bytes.
   */
  predicate MayOverrun(blocks: nat, blockLength: int, minSplitSize: int, startIndex: nat, endIndex: nat) {
    startIndex < blocks &&
    (endIndex <= startIndex ||
     (startIndex + 1 < endIndex < blocks && blockLength < minSplitSize <= (blocks - startIndex - 1) * blockLength))
  }

  /** For all other sizes the answer is in the range, whatever the bit fields hold. */
  lemma InorderStaysInRange(bits: seq<bool>, use: seq<bool>, blockLength: int, minSplitSize: int,
                            startIndex: nat, endIndex: nat, index: nat)
    requires |bits| == |use| && 0 < blockLength
    requires InorderAnswer(bits, use, blockLength, minSplitSize, startIndex, endIndex, true, index)
    requires !MayOverrun(|bits|, blockLength, minSplitSize, startIndex, endIndex)
    ensures startIndex <= index < endIndex
  {
    if !Available(bits, use, startIndex) {
      var s: nat :| startIndex < s < endIndex && RunStart(bits, use, s) && TakenFrom(bits, use, blockLength, minSplitSize, s, index);
      hide InorderAnswer, TakenFrom;
      if s < index {
        TakenLate(bits, use, blockLength, minSplitSize, s, index);
        Longer(blockLength, index - s + 1, |bits| - startIndex - 1);
      } else {
        NotBefore(bits, use, blockLength, minSplitSize, s, index);
      }
    }
  }

  lemma NotBefore(bits: seq<bool>, use: seq<bool>, blockLength: int, minSplitSize: int, s: nat, index: nat)
    requires |bits| == |use| && TakenFrom(bits, use, blockLength, minSplitSize, s, index)
    ensures s <= index
  {
  }

  lemma TakenLate(bits: seq<bool>, use: seq<bool>, blockLength: int, minSplitSize: int, s: nat, index: nat)
    requires |bits| == |use| && TakenFrom(bits, use, blockLength, minSplitSize, s, index) && s < index
    ensures index < |bits| && blockLength < minSplitSize <= (index - s + 1) * blockLength
  {
    assert !Enough(blockLength, minSplitSize, s, s);
  }

  lemma Longer(blockLength: int, m: int, n: int)
    requires 0 < blockLength
    ensures m <= n ==> m * blockLength <= n * blockLength
    ensures 1 * blockLength == blockLength
  {
  }

  /** The number of blocks that make minSplitSize bytes. */
  lemma SplitBlocks(blockLength: int, minSplitSize: int, n: nat) returns (m: nat)
    requires 0 < blockLength < minSplitSize <= n * blockLength
    ensures 2 <= m <= n && (m - 1) * blockLength < minSplitSize <= m * blockLength
  {
    m := n;
    Longer(blockLength, m, 1);
    while minSplitSize <= (m - 1) * blockLength
      invariant 2 <= m <= n && minSplitSize <= m * blockLength
      decreases m
    {
      m := m - 1;
      Longer(blockLength, m, 1);
    }
  }

  /** For these sizes some bit fields do make it leave the range. */
  lemma InorderLeavesRange(blocks: nat, blockLength: int, minSplitSize: int, startIndex: nat, endIndex: nat)
    requires 0 < blockLength && MayOverrun(blocks, blockLength, minSplitSize, startIndex, endIndex)
    ensures exists bits: seq<bool>, use: seq<bool>, index: nat ::
              && |bits| == |use| == blocks && endIndex <= index
              && InorderAnswer(bits, use, blockLength, minSplitSize, startIndex, endIndex, true, index)
  {
    if endIndex <= startIndex {
      var free := seq(blocks, i => false);
      assert InorderAnswer(free, free, blockLength, minSplitSize, startIndex, endIndex, true, startIndex);
    } else {
      var m := SplitBlocks(blockLength, minSplitSize, blocks - startIndex - 1);
      var s := if endIndex - 1 + m <= blocks then endIndex - 1 else blocks - m;
      TakenBehind(blocks, blockLength, minSplitSize, s, m);
      var use := seq(blocks, i => i < s);
      hide TakenFrom, Enough;
      assert InorderAnswer(use, use, blockLength, minSplitSize, startIndex, endIndex, true, s + m - 1);
    }
  }

  lemma TakenBehind(blocks: nat, blockLength: int, minSplitSize: int, s: nat, m: nat)
    requires 0 < s && s + m <= blocks && 0 < blockLength
    requires 2 <= m && (m - 1) * blockLength < minSplitSize <= m * blockLength
    ensures var use := seq(blocks, i => i < s);
            RunStart(use, use, s) && TakenFrom(use, use, blockLength, minSplitSize, s, s + m - 1)
  {
    forall j: nat | s <= j < s + m - 1
      ensures !Enough(blockLength, minSplitSize, s, j)
    {
      Longer(blockLength, j - s + 1, m - 1);
    }
  }

  // ----- the random selector

  ghost predicate InorderFinds(bits: seq<bool>, use: seq<bool>, blockLength: int, minSplitSize: int, startIndex: nat, lastIndex: nat)
    requires |bits| == |use|
  {
    exists i: nat :: InorderAnswer(bits, use, blockLength, minSplitSize, startIndex, lastIndex, true, i)
  }

  /** From a random block to the end, else before it, else over all blocks. */
  ghost predicate RandomAnswer(bits: seq<bool>, use: seq<bool>, blockLength: int, minSplitSize: int,
                               start: nat, found: bool, index: nat)
    requires |bits| == |use|
  {
    if InorderFinds(bits, use, blockLength, minSplitSize, start, |bits|) then
      found && InorderAnswer(bits, use, blockLength, minSplitSize, start, |bits|, true, index)
    else if InorderFinds(bits, use, blockLength, minSplitSize, 0, start) then
      found && InorderAnswer(bits, use, blockLength, minSplitSize, 0, start, true, index)
    else
      InorderAnswer(bits, use, blockLength, minSplitSize, 0, |bits|, found, index)
  }

  /** With no more than one block to split off, a search answers with the first available block. */
  lemma InorderFindsFirst(bits: seq<bool>, use: seq<bool>, blockLength: int, minSplitSize: int,
                          startIndex: nat, lastIndex: nat, index: nat)
    requires |bits| == |use| && minSplitSize <= blockLength
    requires InorderAnswer(bits, use, blockLength, minSplitSize, startIndex, lastIndex, true, index)
    ensures startIndex <= index && forall i: nat | startIndex <= i < index :: !Available(bits, use, i)
  {
    hide TakenFrom, Available;
    if !Available(bits, use, startIndex) {
      var s: nat :| && startIndex < s < lastIndex && RunStart(bits, use, s) && TakenFrom(bits, use, blockLength, minSplitSize, s, index)
                    && forall t: nat | startIndex < t < s && RunStart(bits, use, t) :: Refused(bits, use, blockLength, minSplitSize, t);
      EnoughAtOnce(bits, use, blockLength, minSplitSize, s, index);
      forall i: nat | startIndex <= i < s
        ensures !Available(bits, use, i)
      {
        if Available(bits, use, i) {
          var t := RunBefore(bits, use, startIndex, i);
          EnoughAtOnce(bits, use, blockLength, minSplitSize, t, t);
        }
      }
    }
  }

  lemma {:induction false} FindsAvailable(bits: seq<bool>, use: seq<bool>, blockLength: int, minSplitSize: int,
                                          startIndex: nat, lastIndex: nat, i: nat)
    requires |bits| == |use| && minSplitSize <= blockLength
    requires startIndex <= i < lastIndex && Available(bits, use, i)
    ensures InorderFinds(bits, use, blockLength, minSplitSize, startIndex, lastIndex)
    decreases i
  {
    hide TakenFrom, Available;
    if Available(bits, use, startIndex) {
      assert InorderAnswer(bits, use, blockLength, minSplitSize, startIndex, lastIndex, true, startIndex);
    } else if j: nat :| startIndex < j < i && Available(bits, use, j) {
      FindsAvailable(bits, use, blockLength, minSplitSize, startIndex, lastIndex, j);
    } else {
      EnoughAtOnce(bits, use, blockLength, minSplitSize, i, i);
      assert InorderAnswer(bits, use, blockLength, minSplitSize, startIndex, lastIndex, true, i);
    }
  }

  /** Then the random selector takes the next available block from the random one on, and wraps around. */
  lemma RandomFindsNext(bits: seq<bool>, use: seq<bool>, blockLength: int, minSplitSize: int, start: nat, found: bool, index: nat)
    requires |bits| == |use| && minSplitSize <= blockLength && start < |bits|
    requires RandomAnswer(bits, use, blockLength, minSplitSize, start, found, index)
    ensures found <==> exists i :: 0 <= i < |bits| && !bits[i] && !use[i]
    ensures found ==> index < |bits| && !bits[index] && !use[index]
    ensures found && start <= index ==> forall i | start <= i < index :: bits[i] || use[i]
    ensures found && index < start ==> forall i | 0 <= i < |bits| && (i < index || start <= i) :: bits[i] || use[i]
  {
    hide InorderAnswer, InorderFinds;
    forall i: nat, first: nat, last: nat | first <= i < last && Available(bits, use, i)
      ensures InorderFinds(bits, use, blockLength, minSplitSize, first, last)
    {
      FindsAvailable(bits, use, blockLength, minSplitSize, first, last, i);
    }
    assert forall i | 0 <= i < |bits| :: Available(bits, use, i) <==> !bits[i] && !use[i];
    if InorderFinds(bits, use, blockLength, minSplitSize, start, |bits|) {
      FirstAvailable(bits, use, blockLength, minSplitSize, start, |bits|, index);
    } else if InorderFinds(bits, use, blockLength, minSplitSize, 0, start) {
      FirstAvailable(bits, use, blockLength, minSplitSize, 0, start, index);
    } else {
      InorderIsComplete(bits, use, blockLength, minSplitSize, 0, |bits|, found, index);
    }
  }

  lemma FirstAvailable(bits: seq<bool>, use: seq<bool>, blockLength: int, minSplitSize: int,
                       startIndex: nat, lastIndex: nat, index: nat)
    requires |bits| == |use| && minSplitSize <= blockLength
    requires InorderAnswer(bits, use, blockLength, minSplitSize, startIndex, lastIndex, true, index)
    ensures Available(bits, use, index) && Searched(startIndex, lastIndex, index)
    ensures forall i: nat | startIndex <= i < index :: !Available(bits, use, i)
  {
    hide InorderAnswer;
    InorderIsSafe(bits, use, blockLength, minSplitSize, startIndex, lastIndex, index);
    InorderIsComplete(bits, use, blockLength, minSplitSize, startIndex, lastIndex, true, index);
    InorderFindsFirst(bits, use, blockLength, minSplitSize, startIndex, lastIndex, index);
  }
}
