/**
 * The block tracker of temp_workspace/PieceBlockTracker.h. Every operation is one atomic step, so a
 * run of any number of threads is a sequence of calls, and a claim about all sequences is a claim
 * about all interleavings.
 */
module ClaimHistory {

  datatype State = Free | Requested | Writing | Finished

  datatype Op = TryRequest | TryStartWrite | MarkFinished | ResetBlock

  datatype Call = Call(thread: nat, block: nat, op: Op)

  predicate Wins(s: State, op: Op) {
    (op == TryRequest && s == Free) || (op == TryStartWrite && s == Requested)
  }

  function Next(s: State, op: Op): State {
    match op
    case TryRequest => if s == Free then Requested else s
    case TryStartWrite => if s == Requested then Writing else s
    case MarkFinished => Finished
    case ResetBlock => Free
  }

  // ----- histories

  /** The state of a block before call number i of a run from fresh blocks. */
  ghost function StateAt(calls: seq<Call>, block: nat, i: nat): State
    requires i <= |calls|
  {
    if i == 0 then Free
    else if calls[i - 1].block != block then StateAt(calls, block, i - 1)
    else Next(StateAt(calls, block, i - 1), calls[i - 1].op)
  }

  /** Call number i succeeds. */
  ghost predicate Won(calls: seq<Call>, i: nat)
    requires i < |calls|
  {
    Wins(StateAt(calls, calls[i].block, i), calls[i].op)
  }

  /** Call number i is the operation on the block. */
  predicate Is(calls: seq<Call>, i: int, block: nat, op: Op) {
    0 <= i < |calls| && calls[i].block == block && calls[i].op == op
  }

  ghost predicate ResetBetween(calls: seq<Call>, block: nat, i: int, j: int) {
    exists m :: i < m < j && Is(calls, m, block, ResetBlock)
  }

  /** Nothing is requested or finished that has not been reset since. */
  ghost predicate Unclaimed(calls: seq<Call>, block: nat, i: nat) {
    forall k | 0 <= k < i && (Is(calls, k, block, TryRequest) || Is(calls, k, block, MarkFinished)) ::
      ResetBetween(calls, block, k, i)
  }

  /** The winning request number r still waits for a writer. */
  ghost predicate Waiting(calls: seq<Call>, block: nat, r: int, i: nat) {
    0 <= r < i && Is(calls, r, block, TryRequest) && Won(calls, r) &&
    forall m | r < m < i :: !Is(calls, m, block, ResetBlock) && !Is(calls, m, block, TryStartWrite) && !Is(calls, m, block, MarkFinished)
  }

  lemma {:induction false} FreeIsUnclaimed(calls: seq<Call>, block: nat, i: nat)
    requires i <= |calls|
    ensures StateAt(calls, block, i) == Free <==> Unclaimed(calls, block, i)
    decreases i
  {
    if i > 0 {
      FreeIsUnclaimed(calls, block, i - 1);
      var c := calls[i - 1];
      if c.block == block && c.op == ResetBlock {
        forall k | 0 <= k < i && (Is(calls, k, block, TryRequest) || Is(calls, k, block, MarkFinished))
          ensures ResetBetween(calls, block, k, i)
        {
          assert Is(calls, i - 1, block, ResetBlock);
        }
      } else if c.block == block && (c.op == TryRequest || c.op == MarkFinished) {
        assert Is(calls, i - 1, block, c.op) && !ResetBetween(calls, block, i - 1, i);
      } else {
        UnclaimedSteps(calls, block, i);
      }
    }
  }

  lemma UnclaimedSteps(calls: seq<Call>, block: nat, i: nat)
    requires 0 < i <= |calls|
    requires calls[i - 1].block != block || calls[i - 1].op == TryStartWrite
    ensures Unclaimed(calls, block, i) <==> Unclaimed(calls, block, i - 1)
  {
    forall k | 0 <= k < i
      ensures ResetBetween(calls, block, k, i) <==> ResetBetween(calls, block, k, i - 1)
    {
    }
  }

  lemma {:induction false} RequestedIsWaiting(calls: seq<Call>, block: nat, i: nat)
    requires i <= |calls|
    ensures StateAt(calls, block, i) == Requested <==> exists r :: Waiting(calls, block, r, i)
    decreases i
  {
    if i > 0 {
      RequestedIsWaiting(calls, block, i - 1);
      var c := calls[i - 1];
      if c.block == block && c.op != TryRequest {
        assert Is(calls, i - 1, block, c.op);
      } else if StateAt(calls, block, i) == Requested {
        if StateAt(calls, block, i - 1) == Requested {
          var r :| Waiting(calls, block, r, i - 1);
          assert Waiting(calls, block, r, i);
        } else {
          assert Waiting(calls, block, i - 1, i);
        }
      } else {
        assert forall r | Waiting(calls, block, r, i) :: r < i - 1 ==> Waiting(calls, block, r, i - 1);
      }
    }
  }

  // ----- first write wins

  /** A request succeeds exactly when the block is unclaimed, a write exactly when a request waits for it. */
  lemma WinnersByHistory(calls: seq<Call>, i: nat)
    requires i < |calls|
    ensures calls[i].op == TryRequest ==> (Won(calls, i) <==> Unclaimed(calls, calls[i].block, i))
    ensures calls[i].op == TryStartWrite ==> (Won(calls, i) <==> exists r :: Waiting(calls, calls[i].block, r, i))
  {
    FreeIsUnclaimed(calls, calls[i].block, i);
    RequestedIsWaiting(calls, calls[i].block, i);
  }

  lemma OneRequestOnly(calls: seq<Call>, block: nat, i: int, j: int)
    requires 0 <= i < j < |calls| && Is(calls, i, block, TryRequest) && Is(calls, j, block, TryRequest)
    requires Won(calls, j)
    ensures ResetBetween(calls, block, i, j)
  {
    WinnersByHistory(calls, j);
  }

  /** Between two resets at most one request and at most one write succeed. */
  lemma AtMostOneWinner(calls: seq<Call>, i: nat, j: nat)
    requires i < j < |calls| && calls[i].block == calls[j].block && calls[i].op == calls[j].op
    requires Won(calls, i) && Won(calls, j)
    ensures ResetBetween(calls, calls[i].block, i, j)
  {
    hide StateAt, Unclaimed;
    var b := calls[i].block;
    if calls[i].op == TryRequest {
      OneRequestOnly(calls, b, i, j);
    } else {
      WinnersByHistory(calls, i);
      WinnersByHistory(calls, j);
      var r :| Waiting(calls, b, r, j);
      var q :| Waiting(calls, b, q, i);
      assert Is(calls, i, b, TryStartWrite);
      OneRequestOnly(calls, b, q, r);
    }
  }

  /** A write that succeeds follows a request that succeeded, with no reset in between. */
  lemma WriteFollowsRequest(calls: seq<Call>, j: nat)
    requires j < |calls| && calls[j].op == TryStartWrite && Won(calls, j)
    ensures exists r :: 0 <= r < j && Is(calls, r, calls[j].block, TryRequest) && Won(calls, r) &&
                        !ResetBetween(calls, calls[j].block, r, j)
  {
    hide StateAt, Unclaimed;
    WinnersByHistory(calls, j);
    var r :| Waiting(calls, calls[j].block, r, j);
  }

  /** No call in the window resets or finishes the block. */
  ghost predicate Quiet(calls: seq<Call>, block: nat, i: int, j: int) {
    forall m | i <= m < j :: !Is(calls, m, block, ResetBlock) && !Is(calls, m, block, MarkFinished)
  }

  /** Contenders for `op` stand before `want` until the first of them, and none stands there afterwards. */
  lemma {:induction false} WindowOf(calls: seq<Call>, block: nat, op: Op, want: State, i: nat, j: nat)
    requires i <= j <= |calls| && Quiet(calls, block, i, j)
    requires (op == TryRequest && want == Free) || (op == TryStartWrite && want == Requested)
    requires StateAt(calls, block, i) == want
    ensures (forall m | i <= m < j :: !Is(calls, m, block, op)) ==> StateAt(calls, block, j) == want
    ensures (exists m :: i <= m < j && Is(calls, m, block, op)) ==> StateAt(calls, block, j) != want && StateAt(calls, block, j) != Free
    decreases j
  {
    if i < j {
      WindowOf(calls, block, op, want, i, j - 1);
      assert !Is(calls, j - 1, block, ResetBlock) && !Is(calls, j - 1, block, MarkFinished);
      assert calls[j - 1].block == block && calls[j - 1].op == op ==> Is(calls, j - 1, block, op);
    }
  }

  /** Among contenders for a block that nobody resets or finishes, the first one wins and no other does. */
  lemma FirstContenderWins(calls: seq<Call>, block: nat, op: Op, i: nat, j: nat)
    requires i <= j <= |calls| && Quiet(calls, block, i, j)
    requires Wins(StateAt(calls, block, i), op)
    ensures forall k | i <= k < j && Is(calls, k, block, op) ::
              Won(calls, k) <==> forall m | i <= m < k :: !Is(calls, m, block, op)
  {
    hide StateAt;
    forall k | i <= k < j && Is(calls, k, block, op)
      ensures Won(calls, k) <==> forall m | i <= m < k :: !Is(calls, m, block, op)
    {
      WindowOf(calls, block, op, StateAt(calls, block, i), i, k);
    }
  }

  lemma {:induction false} FirstOf(calls: seq<Call>, block: nat, op: Op, i: nat, j: nat) returns (w: nat)
    requires i < j <= |calls| && exists k :: i <= k < j && Is(calls, k, block, op)
    ensures i <= w < j && Is(calls, w, block, op) && forall m | i <= m < w :: !Is(calls, m, block, op)
    decreases j - i
  {
    if Is(calls, i, block, op) {
      w := i;
    } else {
      w := FirstOf(calls, block, op, i + 1, j);
    }
  }

  /** So exactly one of them wins. */
  lemma ExactlyOneWinner(calls: seq<Call>, block: nat, op: Op, i: nat, j: nat)
    requires i < j <= |calls| && Quiet(calls, block, i, j) && Wins(StateAt(calls, block, i), op)
    requires exists k :: i <= k < j && Is(calls, k, block, op)
    ensures exists w: nat :: i <= w < j && Is(calls, w, block, op) && Won(calls, w) &&
                             forall k | i <= k < j && Is(calls, k, block, op) && Won(calls, k) :: k == w
  {
    hide StateAt, Won, Wins;
    var w := FirstOf(calls, block, op, i, j);
    FirstContenderWins(calls, block, op, i, j);
  }
}
