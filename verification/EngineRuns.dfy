/**
 * Runs of the tracker of libaria2/src/PieceBlockTracker.h: calls on many pieces, one after another, and
 * the history that they make for each block.
 */
module EngineRuns {
  import opened GateHistory

  datatype Piece = Piece(states: seq<State>, winners: seq<int>)

  datatype Call =
    | Add(piece: nat, blocks: nat)
    | AskFor(piece: nat, block: nat)
    | Write(piece: nat, block: nat, cuid: int)
    | Reset(piece: nat, block: nat)
    | Clear(piece: nat, cuid: int)

  predicate ValidPieces(v: map<nat, Piece>) {
    forall p | p in v :: |v[p].states| == |v[p].winners|
  }

  predicate Has(v: map<nat, Piece>, piece: nat, block: nat) {
    piece in v && block < |v[piece].states|
  }

  /** A step on one block of a piece. */
  function Stepped(p: Piece, block: nat, step: Step): Piece
    requires block < |p.states| == |p.winners|
  {
    Piece(p.states[block := NextState(p.states[block], step)], p.winners[block := NextWinner(p.winners[block], step)])
  }

  function Cleared(p: Piece, cuid: int): Piece {
    p.(winners := seq(|p.winners|, i requires 0 <= i < |p.winners| => NextWinner(p.winners[i], ClearIf(cuid))))
  }

  function Fresh(blocks: nat): Piece {
    Piece(seq(blocks, _ => Free), seq(blocks, _ => 0))
  }

  function Apply(v: map<nat, Piece>, call: Call): (r: map<nat, Piece>)
    requires ValidPieces(v)
    ensures ValidPieces(r)
  {
    match call
    case Add(p, blocks) => if p in v then v else v[p := Fresh(blocks)]
    case AskFor(p, b) => if Has(v, p, b) then v[p := Stepped(v[p], b, Request)] else v
    case Write(p, b, cuid) => if Has(v, p, b) then v[p := Stepped(v[p], b, StartWrite(cuid))] else v
    case Reset(p, b) => if Has(v, p, b) then v[p := Stepped(Stepped(v[p], b, StoreFree), b, StoreNoWinner)] else v
    case Clear(p, cuid) => if p in v then v[p := Cleared(v[p], cuid)] else v
  }

  function Answer(v: map<nat, Piece>, call: Call): bool
    requires ValidPieces(v)
  {
    match call
    case AskFor(p, b) => Has(v, p, b) && v[p].states[b] == Free
    case Write(p, b, cuid) => Has(v, p, b) && Admitted(v[p].winners[b], cuid)
    case _ => false
  }

  /** The pieces before call number i of a run from an empty tracker. */
  ghost function PiecesAt(calls: seq<Call>, i: nat): (v: map<nat, Piece>)
    requires i <= |calls|
    ensures ValidPieces(v)
  {
    if i == 0 then map[] else Apply(PiecesAt(calls, i - 1), calls[i - 1])
  }

  // ----- the history of one block

  /** The steps that a call takes on a block. */
  function StepsBy(call: Call, piece: nat, block: nat): seq<Step> {
    match call
    case Add(_, _) => []
    case AskFor(p, b) => if p == piece && b == block then [Request] else []
    case Write(p, b, cuid) => if p == piece && b == block then [StartWrite(cuid)] else []
    case Reset(p, b) => if p == piece && b == block then [StoreFree, StoreNoWinner] else []
    case Clear(p, cuid) => if p == piece then [ClearIf(cuid)] else []
  }

  /** The steps on a block before call number i, from the addition of its piece on. */
  ghost function History(calls: seq<Call>, i: nat, piece: nat, block: nat): seq<Step>
    requires i <= |calls|
  {
    if i == 0 then []
    else History(calls, i - 1, piece, block) +
         if Has(PiecesAt(calls, i - 1), piece, block) then StepsBy(calls[i - 1], piece, block) else []
  }

  ghost function WinnerAfter(steps: seq<Step>): int {
    WinnerAt(steps, |steps|)
  }

  /** A known block stays known; before it is known it has no history. */
  lemma {:induction false} UnknownHasNoHistory(calls: seq<Call>, i: nat, piece: nat, block: nat)
    requires i <= |calls| && !Has(PiecesAt(calls, i), piece, block)
    ensures History(calls, i, piece, block) == []
    decreases i
  {
    if i > 0 {
      KnownStaysKnown(PiecesAt(calls, i - 1), calls[i - 1], piece, block);
      UnknownHasNoHistory(calls, i - 1, piece, block);
    }
  }

  lemma KnownStaysKnown(v: map<nat, Piece>, call: Call, piece: nat, block: nat)
    requires ValidPieces(v)
    ensures Has(v, piece, block) ==> Has(Apply(v, call), piece, block)
    ensures Has(v, piece, block) ==>
              Apply(v, call)[piece].winners[block] == WinnerFrom(v[piece].winners[block], StepsBy(call, piece, block))
    ensures !Has(v, piece, block) && Has(Apply(v, call), piece, block) ==> Apply(v, call)[piece].winners[block] == 0
  {
    if Has(v, piece, block) {
      var w := v[piece].winners[block];
      assert WinnerFrom(w, []) == w;
      if |StepsBy(call, piece, block)| == 1 {
        assert WinnerFrom(w, StepsBy(call, piece, block)) == NextWinner(w, StepsBy(call, piece, block)[0]);
      } else if call.Reset? {
        assert WinnerFrom(w, [StoreFree, StoreNoWinner]) == WinnerFrom(w, [StoreNoWinner]) == 0;
      }
    }
  }

  /** The winner that some steps make of another. */
  function WinnerFrom(winner: int, steps: seq<Step>): int
    decreases |steps|
  {
    if steps == [] then winner else WinnerFrom(NextWinner(winner, steps[0]), steps[1..])
  }

  lemma {:induction false} WinnerPrefix(steps: seq<Step>, more: seq<Step>, i: nat)
    requires i <= |steps|
    ensures WinnerAt(steps + more, i) == WinnerAt(steps, i)
    decreases i
  {
    if i > 0 {
      WinnerPrefix(steps, more, i - 1);
    }
  }

  lemma {:induction false} WinnerAppended(steps: seq<Step>, more: seq<Step>)
    ensures WinnerAfter(steps + more) == WinnerFrom(WinnerAfter(steps), more)
    decreases |more|
  {
    if more == [] {
      assert steps + more == steps;
    } else {
      var one := steps + [more[0]];
      assert steps + more == one + more[1..];
      WinnerPrefix(steps, [more[0]], |steps|);
      WinnerAppended(one, more[1..]);
    }
  }

  /** The winner recorded for a block is the one that its history makes. */
  lemma {:induction false} WinnerOfHistory(calls: seq<Call>, i: nat, piece: nat, block: nat)
    requires i <= |calls| && Has(PiecesAt(calls, i), piece, block)
    ensures PiecesAt(calls, i)[piece].winners[block] == WinnerAfter(History(calls, i, piece, block))
    decreases i
  {
    hide Apply, StepsBy, WinnerFrom, WinnerAt;
    var v, h := PiecesAt(calls, i - 1), History(calls, i - 1, piece, block);
    KnownStaysKnown(v, calls[i - 1], piece, block);
    if Has(v, piece, block) {
      WinnerOfHistory(calls, i - 1, piece, block);
      WinnerAppended(h, StepsBy(calls[i - 1], piece, block));
    } else {
      UnknownHasNoHistory(calls, i - 1, piece, block);
      NobodyAtFirst();
    }
  }

  lemma NobodyAtFirst()
    ensures WinnerAfter([]) == 0
  {
  }

  /** A connection may write exactly when the block is known and its history admits it. */
  lemma GateByHistory(calls: seq<Call>, i: nat)
    requires i < |calls| && calls[i].Write?
    ensures var c := calls[i];
            var h := History(calls, i, c.piece, c.block);
            Answer(PiecesAt(calls, i), c) <==>
            Has(PiecesAt(calls, i), c.piece, c.block) && MayWrite(h + [StartWrite(c.cuid)], |h|)
  {
    hide PiecesAt, History, WinnerAt;
    var c := calls[i];
    var h := History(calls, i, c.piece, c.block);
    WinnerPrefix(h, [StartWrite(c.cuid)], |h|);
    if Has(PiecesAt(calls, i), c.piece, c.block) {
      WinnerOfHistory(calls, i, c.piece, c.block);
    }
  }

  // ----- first write wins, over calls

  predicate Frees(call: Call, piece: nat, block: nat, cuid: int) {
    call == Reset(piece, block) || call == Clear(piece, cuid)
  }

  lemma {:induction false} HistoryGrows(calls: seq<Call>, i: nat, j: nat, piece: nat, block: nat)
    requires i <= j <= |calls|
    ensures History(calls, i, piece, block) <= History(calls, j, piece, block)
    decreases j
  {
    if i < j {
      HistoryGrows(calls, i, j - 1, piece, block);
    }
  }

  /** A step that releases a block comes from a reset of it or from the cancellation of its connection. */
  lemma {:induction false} ReleaseComesFrom(calls: seq<Call>, i: nat, j: nat, piece: nat, block: nat, cuid: int, m: nat)
    requires i <= j <= |calls| && |History(calls, i, piece, block)| <= m < |History(calls, j, piece, block)|
    requires Releases(History(calls, j, piece, block)[m], cuid)
    ensures exists k :: i <= k < j && Frees(calls[k], piece, block, cuid)
    decreases j
  {
    hide PiecesAt, StepsBy, Releases, Frees;
    var h := History(calls, j - 1, piece, block);
    if m < |h| {
      ReleaseComesFrom(calls, i, j - 1, piece, block, cuid, m);
    } else {
      ReleaseIsFrees(calls[j - 1], piece, block, cuid, m - |h|);
    }
  }

  lemma ReleaseIsFrees(call: Call, piece: nat, block: nat, cuid: int, m: nat)
    requires m < |StepsBy(call, piece, block)| && Releases(StepsBy(call, piece, block)[m], cuid)
    ensures Frees(call, piece, block, cuid)
  {
  }

  /**
   * Two connections are let through to a block only if it was reset in between, or the earlier one
   * was cancelled.
   */
  lemma OneWriterAtATime(calls: seq<Call>, i: nat, j: nat)
    requires i < j < |calls| && calls[i].Write? && calls[j].Write?
    requires calls[i].piece == calls[j].piece && calls[i].block == calls[j].block
    requires calls[i].cuid != calls[j].cuid && calls[i].cuid != 0
    requires Answer(PiecesAt(calls, i), calls[i]) && Answer(PiecesAt(calls, j), calls[j])
    ensures exists k :: i < k < j && Frees(calls[k], calls[i].piece, calls[i].block, calls[i].cuid)
  {
    hide PiecesAt, WinnerAt, MayWrite;
    var c, d := calls[i], calls[j];
    var h, g := History(calls, i, c.piece, c.block), History(calls, j, c.piece, c.block);
    GateByHistory(calls, i);
    GateByHistory(calls, j);
    var h' := h + [StartWrite(c.cuid)];
    assert History(calls, i + 1, c.piece, c.block) == h';
    HistoryGrows(calls, i + 1, j, c.piece, c.block);
    var g' := g + [StartWrite(d.cuid)];
    SamePrefix(h', g', |h|);
    FirstWriteWins(g', |h|, |g|);
    var m :| |h| < m < |g| && 0 <= m < |g'| && Releases(g'[m], c.cuid);
    ReleaseComesFrom(calls, i + 1, j, c.piece, c.block, c.cuid, m);
  }

  lemma SamePrefix(h: seq<Step>, g: seq<Step>, i: nat)
    requires i < |h| && h <= g && h[i].StartWrite?
    ensures g[i] == h[i] && (MayWrite(g, i) <==> MayWrite(h, i))
  {
    assert g == h + g[|h|..];
    WinnerPrefix(h, g[|h|..], i);
  }

  // ----- requests

  /** A request for a known block. */
  ghost predicate Asked(calls: seq<Call>, k: int, piece: nat, block: nat) {
    0 <= k < |calls| && calls[k] == AskFor(piece, block) && Has(PiecesAt(calls, k), piece, block)
  }

  predicate ResetBetween(calls: seq<Call>, piece: nat, block: nat, i: int, j: int) {
    exists m | i < m < j && 0 <= m < |calls| :: calls[m] == Reset(piece, block)
  }

  /** Every request for the block before call number i is followed by a reset of it. */
  ghost predicate NotAsked(calls: seq<Call>, piece: nat, block: nat, i: nat) {
    forall k | 0 <= k < i && Asked(calls, k, piece, block) :: ResetBetween(calls, piece, block, k, i)
  }

  /** What a call does to the state of a block. */
  lemma StateSteps(v: map<nat, Piece>, call: Call, piece: nat, block: nat)
    requires ValidPieces(v) && Has(Apply(v, call), piece, block)
    ensures var state := Apply(v, call)[piece].states[block];
            if !Has(v, piece, block) then state == Free
            else if call == AskFor(piece, block) then state != Free
            else if call == Reset(piece, block) then state == Free
            else state == v[piece].states[block]
  {
  }

  lemma NotAskedSteps(calls: seq<Call>, piece: nat, block: nat, i: nat)
    requires 0 < i <= |calls|
    ensures calls[i - 1] == Reset(piece, block) ==> NotAsked(calls, piece, block, i)
    ensures Asked(calls, i - 1, piece, block) ==> !NotAsked(calls, piece, block, i)
    ensures calls[i - 1] != Reset(piece, block) && !Asked(calls, i - 1, piece, block) ==>
              (NotAsked(calls, piece, block, i) <==> NotAsked(calls, piece, block, i - 1))
  {
    hide Asked;
    if calls[i - 1] == Reset(piece, block) {
      assert !Asked(calls, i - 1, piece, block) by {
        ResetIsNoRequest(calls, i - 1, piece, block);
      }
      assert forall k | 0 <= k < i - 1 :: ResetBetween(calls, piece, block, k, i);
    } else {
      assert forall k :: 0 <= k < i - 1 ==> (ResetBetween(calls, piece, block, k, i) <==> ResetBetween(calls, piece, block, k, i - 1));
      assert !ResetBetween(calls, piece, block, i - 1, i);
    }
  }

  lemma ResetIsNoRequest(calls: seq<Call>, k: nat, piece: nat, block: nat)
    requires k < |calls| && calls[k] == Reset(piece, block)
    ensures !Asked(calls, k, piece, block)
  {
  }

  /** Nobody has asked for a block that is not known. */
  lemma {:induction false} UnknownIsNotAsked(calls: seq<Call>, piece: nat, block: nat, i: nat)
    requires i <= |calls| && !Has(PiecesAt(calls, i), piece, block)
    ensures NotAsked(calls, piece, block, i)
    decreases i
  {
    if i > 0 {
      KnownStaysKnown(PiecesAt(calls, i - 1), calls[i - 1], piece, block);
      UnknownIsNotAsked(calls, piece, block, i - 1);
      NotAskedSteps(calls, piece, block, i);
    }
  }

  lemma {:induction false} FreeIsNotAsked(calls: seq<Call>, piece: nat, block: nat, i: nat)
    requires i <= |calls| && Has(PiecesAt(calls, i), piece, block)
    ensures PiecesAt(calls, i)[piece].states[block] == Free <==> NotAsked(calls, piece, block, i)
    decreases i
  {
    hide Apply, NotAsked;
    if i > 0 {
      var v := PiecesAt(calls, i - 1);
      StateSteps(v, calls[i - 1], piece, block);
      NotAskedSteps(calls, piece, block, i);
      if Has(v, piece, block) {
        FreeIsNotAsked(calls, piece, block, i - 1);
      } else {
        UnknownIsNotAsked(calls, piece, block, i - 1);
      }
    }
  }

  /** A request succeeds exactly when the block is known and was reset after every earlier request for it. */
  lemma RequestByHistory(calls: seq<Call>, i: nat)
    requires i < |calls| && calls[i].AskFor?
    ensures var c := calls[i];
            Answer(PiecesAt(calls, i), c) <==>
            Has(PiecesAt(calls, i), c.piece, c.block) && NotAsked(calls, c.piece, c.block, i)
  {
    hide PiecesAt, NotAsked;
    var c := calls[i];
    if Has(PiecesAt(calls, i), c.piece, c.block) {
      FreeIsNotAsked(calls, c.piece, c.block, i);
    }
  }

  /** Between two requests that succeed the block is reset. */
  lemma OneRequestAtATime(calls: seq<Call>, i: nat, j: nat)
    requires i < j < |calls| && calls[i].AskFor? && calls[j] == calls[i]
    requires Answer(PiecesAt(calls, i), calls[i]) && Answer(PiecesAt(calls, j), calls[j])
    ensures exists k :: i < k < j && calls[k] == Reset(calls[i].piece, calls[i].block)
  {
    hide PiecesAt;
    RequestByHistory(calls, j);
    assert Asked(calls, i, calls[i].piece, calls[i].block);
  }
}
