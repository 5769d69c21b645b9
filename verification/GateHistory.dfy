/**
 * The write gate of the download engine (libaria2/src/PieceBlockTracker.h): each block remembers the
 * connection that may write it. A run is a sequence of the atomic steps that the calls consist of.
 */
module GateHistory {

  datatype State = Free | Requested | Writing

  /** The atomic accesses to one block. */
  datatype Step =
    | Request
    | StartWrite(cuid: int)
    | StoreFree
    | StoreNoWinner
    | ClearIf(cuid: int)

  predicate Admitted(winner: int, cuid: int) {
    winner == 0 || winner == cuid
  }

  function NextWinner(winner: int, step: Step): int {
    match step
    case StartWrite(cuid) => if winner == 0 then cuid else winner
    case StoreNoWinner => 0
    case ClearIf(cuid) => if winner == cuid then 0 else winner
    case _ => winner
  }

  function NextState(s: State, step: Step): State {
    match step
    case Request => if s == Free then Requested else s
    case StoreFree => Free
    case _ => s
  }

  // ----- histories of one block

  /** The winner that stands before step number i. */
  ghost function WinnerAt(steps: seq<Step>, i: nat): int
    requires i <= |steps|
  {
    if i == 0 then 0 else NextWinner(WinnerAt(steps, i - 1), steps[i - 1])
  }

  ghost predicate MayWrite(steps: seq<Step>, i: nat)
    requires i < |steps| && steps[i].StartWrite?
  {
    Admitted(WinnerAt(steps, i), steps[i].cuid)
  }

  /** Steps that take the block from the connection. */
  predicate Releases(step: Step, cuid: int) {
    step == StoreNoWinner || step == ClearIf(cuid)
  }

  ghost predicate ReleasedBetween(steps: seq<Step>, cuid: int, i: int, j: int) {
    exists m :: i < m < j && 0 <= m < |steps| && Releases(steps[m], cuid)
  }

  /** The connection was admitted at step k and nothing has released the block since. */
  ghost predicate HeldSince(steps: seq<Step>, cuid: int, k: int, i: nat) {
    0 <= k < i <= |steps| && steps[k] == StartWrite(cuid) && MayWrite(steps, k) && !ReleasedBetween(steps, cuid, k, i)
  }

  ghost predicate Holds(steps: seq<Step>, cuid: int, i: nat) {
    exists k :: HeldSince(steps, cuid, k, i)
  }

  lemma HeldAStepLonger(steps: seq<Step>, cuid: int, k: int, i: nat)
    requires 0 <= k < i < |steps|
    ensures HeldSince(steps, cuid, k, i + 1) <==> HeldSince(steps, cuid, k, i) && !Releases(steps[i], cuid)
  {
    hide MayWrite;
  }

  lemma HeldFromHere(steps: seq<Step>, cuid: int, n: nat)
    requires n < |steps|
    ensures HeldSince(steps, cuid, n, n + 1) <==> steps[n] == StartWrite(cuid) && Admitted(WinnerAt(steps, n), cuid)
  {
    hide WinnerAt;
  }

  lemma HolderSteps(steps: seq<Step>, cuid: int, n: nat)
    requires n < |steps|
    ensures Holds(steps, cuid, n + 1) <==>
            (Holds(steps, cuid, n) && !Releases(steps[n], cuid)) || HeldSince(steps, cuid, n, n + 1)
  {
    hide WinnerAt;
    if Holds(steps, cuid, n + 1) {
      var k :| HeldSince(steps, cuid, k, n + 1);
      if k < n {
        HeldAStepLonger(steps, cuid, k, n);
      }
    } else if Holds(steps, cuid, n) {
      var k :| HeldSince(steps, cuid, k, n);
      HeldAStepLonger(steps, cuid, k, n);
    }
  }

  /** The recorded winner is the connection that holds the block. */
  lemma {:induction false} WinnerIsHolder(steps: seq<Step>, cuid: int, i: nat)
    requires i <= |steps| && cuid != 0
    ensures WinnerAt(steps, i) == cuid <==> Holds(steps, cuid, i)
    decreases i
  {
    if i > 0 {
      hide HeldSince, Holds;
      WinnerIsHolder(steps, cuid, i - 1);
      HolderSteps(steps, cuid, i - 1);
      HeldFromHere(steps, cuid, i - 1);
    }
  }

  /** A connection may write exactly when no other one has been admitted that is not released since. */
  lemma AdmittedByHistory(steps: seq<Step>, j: nat)
    requires j < |steps| && steps[j].StartWrite?
    ensures MayWrite(steps, j) <==> forall d | d != 0 && d != steps[j].cuid :: !Holds(steps, d, j)
  {
    hide Holds, WinnerAt;
    var w := WinnerAt(steps, j);
    if w != 0 {
      WinnerIsHolder(steps, w, j);
    }
    forall d | d != 0 && d != steps[j].cuid
      ensures MayWrite(steps, j) ==> !Holds(steps, d, j)
    {
      WinnerIsHolder(steps, d, j);
    }
  }

  /**
   * First write wins: two connections are admitted to a block only if the earlier one was released in
   * between, by a reset or by its own cancellation, and never by somebody else's.
   */
  lemma FirstWriteWins(steps: seq<Step>, i: nat, j: nat)
    requires i < j < |steps| && steps[i].StartWrite? && steps[j].StartWrite?
    requires steps[i].cuid != steps[j].cuid && MayWrite(steps, i) && MayWrite(steps, j)
    ensures steps[i].cuid != 0 ==> ReleasedBetween(steps, steps[i].cuid, i, j)
  {
    hide WinnerAt, MayWrite, ReleasedBetween;
    AdmittedByHistory(steps, j);
    var c := steps[i].cuid;
    assert !ReleasedBetween(steps, c, i, j) ==> HeldSince(steps, c, i, j);
    assert !ReleasedBetween(steps, c, i, j) ==> Holds(steps, c, j);
  }

  /** Number 0 marks a free block, so a connection of that number excludes nobody. */
  lemma ZeroExcludesNobody(cuid: int)
    ensures var steps := [StartWrite(0), StartWrite(cuid)];
            MayWrite(steps, 0) && MayWrite(steps, 1) && !ReleasedBetween(steps, 0, 0, 1)
  {
    var steps := [StartWrite(0), StartWrite(cuid)];
    assert WinnerAt(steps, 0) == 0;
    assert WinnerAt(steps, 1) == NextWinner(WinnerAt(steps, 0), steps[0]) == 0;
  }

  /** Among connections that compete for a block nobody releases, the first one wins every time. */
  lemma {:induction false} HolderKeepsBlock(steps: seq<Step>, i: nat, j: nat)
    requires i < j < |steps| && steps[i].StartWrite? && steps[i].cuid != 0 && steps[j].StartWrite?
    requires MayWrite(steps, i) && !ReleasedBetween(steps, steps[i].cuid, i, j)
    ensures MayWrite(steps, j) <==> steps[j].cuid == steps[i].cuid
  {
    hide WinnerAt, ReleasedBetween;
    var c := steps[i].cuid;
    assert HeldSince(steps, c, i, j);
    WinnerIsHolder(steps, c, j);
  }
}
