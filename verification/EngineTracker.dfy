/** The tracker of libaria2/src/PieceBlockTracker.h and the numbers of its connections (libaria2/src/CUIDCounter.cc). */
module EngineTracker {
  import opened GateHistory
  import opened EngineRuns

  const INT64_MAX := 0x7fff_ffff_ffff_ffff

  /** The numbers given to connections are never 0. */
  class CUIDCounter {
    var count: int

    constructor ()
      ensures count == 0
    {
      count := 0;
    }

    method NewID() returns (id: int)
      requires 0 <= count <= INT64_MAX
      modifies this
      ensures 1 <= id <= INT64_MAX && count == id
      ensures old(count) < INT64_MAX ==> id == old(count) + 1
    {
      if count == INT64_MAX {
        count := 0;
      }
      count := count + 1;
      id := count;
    }
  }

  // ----- the tracker

  class PieceData {
    const states: array<State>
    const winners: array<int>

    constructor (blocks: nat)
      ensures fresh(states) && fresh(winners) && states.Length == winners.Length == blocks
      ensures Value() == Fresh(blocks)
    {
      states := new State[blocks](_ => Free);
      winners := new int[blocks](_ => 0);
      new;
      assert states[..] == seq(blocks, _ => Free) && winners[..] == seq(blocks, _ => 0);
    }

    function Value(): Piece
      reads states, winners
    {
      Piece(states[..], winners[..])
    }
  }

  class PieceBlockTracker {
    var pieces: map<nat, PieceData>

    /** Everything the tracker owns. */
    ghost function Repr(): set<object>
      reads this
    {
      (set p | p in pieces :: pieces[p].states as object) + (set p | p in pieces :: pieces[p].winners as object)
    }

    ghost predicate Valid()
      reads this
    {
      (forall p | p in pieces :: pieces[p].states.Length == pieces[p].winners.Length) &&
      (forall p, q | p in pieces && q in pieces && p != q ::
         pieces[p].states != pieces[q].states && pieces[p].winners != pieces[q].winners)
    }

    ghost function Value(): (v: map<nat, Piece>)
      reads this, Repr()
      ensures v.Keys == pieces.Keys && forall p | p in pieces :: v[p] == pieces[p].Value()
    {
      map p | p in pieces :: pieces[p].Value()
    }

    constructor ()
      ensures Valid() && Value() == map[]
    {
      pieces := map[];
    }

    method AddPiece(piece: nat, blocks: nat)
      requires Valid()
      modifies this
      ensures Valid() && forall o | o in Repr() :: o in old(Repr()) || fresh(o)
      ensures Value() == if piece in old(Value()) then old(Value())
                         else old(Value())[piece := Fresh(blocks)]
    {
      hide Fresh;
      if piece !in pieces {
        var data := new PieceData(blocks);
        pieces := pieces[piece := data];
      }
    }

    ghost predicate HasBlock(piece: nat, block: nat)
      reads this
    {
      piece in pieces && block < pieces[piece].states.Length
    }

    method TryRequest(piece: nat, block: nat) returns (ok: bool)
      requires Valid()
      modifies Repr()
      ensures ok == (HasBlock(piece, block) && old(Value())[piece].states[block] == Free)
      ensures Value() == if HasBlock(piece, block)
                         then old(Value())[piece := Stepped(old(Value())[piece], block, Request)]
                         else old(Value())
    {
      if piece !in pieces || block >= pieces[piece].states.Length {
        return false;
      }
      var data := pieces[piece];
      ok := data.states[block] == Free;
      if ok {
        data.states[block] := Requested;
      }
      assert data.Value() == Stepped(old(data.Value()), block, Request);
    }

    /** True for the first connection, and again for that connection as long as it holds the block. */
    method TryStartWrite(piece: nat, block: nat, cuid: int) returns (ok: bool)
      requires Valid()
      modifies Repr()
      ensures ok == (HasBlock(piece, block) && Admitted(old(Value())[piece].winners[block], cuid))
      ensures Value() == if HasBlock(piece, block)
                         then old(Value())[piece := Stepped(old(Value())[piece], block, StartWrite(cuid))]
                         else old(Value())
    {
      if piece !in pieces || block >= pieces[piece].states.Length {
        return false;
      }
      var data := pieces[piece];
      var expectedWinner := data.winners[block];
      if expectedWinner == 0 {
        data.winners[block] := cuid;
        ok := true;
      } else {
        ok := expectedWinner == cuid;
      }
      assert data.Value() == Stepped(old(data.Value()), block, StartWrite(cuid));
    }

    /** Two stores, one after the other. */
    method ResetBlock(piece: nat, block: nat)
      requires Valid()
      modifies Repr()
      ensures Value() == if HasBlock(piece, block)
                         then old(Value())[piece := Stepped(Stepped(old(Value())[piece], block, StoreFree), block, StoreNoWinner)]
                         else old(Value())
    {
      if piece in pieces && block < pieces[piece].states.Length {
        var data := pieces[piece];
        data.states[block] := Free;
        data.winners[block] := 0;
        assert data.Value() == Stepped(Stepped(old(data.Value()), block, StoreFree), block, StoreNoWinner);
      }
    }

    /** Takes every block of the piece from the connection, and from no other connection. */
    method ClearCuid(piece: nat, cuid: int)
      requires Valid()
      modifies Repr()
      ensures Value() == if piece in pieces
                         then old(Value())[piece := Cleared(old(Value())[piece], cuid)]
                         else old(Value())
    {
      if piece in pieces {
        var data := pieces[piece];
        ghost var before := data.Value();
        for i := 0 to data.winners.Length
          invariant forall k | 0 <= k < data.winners.Length ::
                      data.winners[k] == (if k < i then NextWinner(before.winners[k], ClearIf(cuid)) else before.winners[k])
          invariant forall p | p in pieces && p != piece :: pieces[p].Value() == old(pieces[p].Value())
          invariant data.states[..] == before.states
        {
          if data.winners[i] == cuid {
            data.winners[i] := 0;
          }
        }
        assert data.Value() == Cleared(before, cuid);
      }
    }

    /** Any run of calls from an empty tracker is answered as the histories of the blocks say. */
    method Serve(calls: seq<Call>) returns (answers: seq<bool>)
      requires pieces == map[]
      modifies this
      ensures Valid() && Value() == PiecesAt(calls, |calls|)
      ensures |answers| == |calls| && forall i | 0 <= i < |calls| :: answers[i] == Answer(PiecesAt(calls, i), calls[i])
    {
      hide PiecesAt, Apply, Answer;
      answers := [];
      EmptyAtFirst(calls);
      for n := 0 to |calls|
        invariant Valid() && Value() == PiecesAt(calls, n) && forall o | o in Repr() :: fresh(o)
        invariant |answers| == n && forall i | 0 <= i < n :: answers[i] == Answer(PiecesAt(calls, i), calls[i])
      {
        NextPieces(calls, n);
        var ok := ServeOne(calls[n]);
        answers := answers + [ok];
      }
    }

    lemma EmptyAtFirst(calls: seq<Call>)
      ensures PiecesAt(calls, 0) == map[]
    {
    }

    lemma NextPieces(calls: seq<Call>, n: nat)
      requires n < |calls|
      ensures PiecesAt(calls, n + 1) == Apply(PiecesAt(calls, n), calls[n])
    {
    }

    method ServeOne(call: Call) returns (ok: bool)
      requires Valid()
      modifies this, Repr()
      ensures Valid() && forall o | o in Repr() :: o in old(Repr()) || fresh(o)
      ensures ValidPieces(old(Value())) && Value() == Apply(old(Value()), call) && ok == Answer(old(Value()), call)
    {
      hide Stepped, Cleared, Fresh, Admitted;
      ok := false;
      if call.Add? {
        AddPiece(call.piece, call.blocks);
      } else if call.AskFor? {
        ok := TryRequest(call.piece, call.block);
      } else if call.Write? {
        ok := TryStartWrite(call.piece, call.block, call.cuid);
      } else if call.Reset? {
        ResetBlock(call.piece, call.block);
      } else {
        ClearCuid(call.piece, call.cuid);
      }
    }
  }
}
