/** The tracker of temp_workspace/PieceBlockTracker.h, proved against the histories of its blocks. */
module BlockTracker {
  import opened ClaimHistory

  /** The array of states, with its atomic operations. */
  class PieceBlockTracker {
    const states: array<State>

    constructor (blocks: nat)
      ensures fresh(states) && states.Length == blocks && forall i | 0 <= i < blocks :: states[i] == Free
    {
      states := new State[blocks](_ => Free);
    }

    /** compare_exchange_strong on one element. */
    method CompareExchange(idx: nat, expected: State, desired: State) returns (ok: bool)
      requires idx < states.Length
      modifies states
      ensures ok == (old(states[idx]) == expected)
      ensures states[..] == if ok then old(states[..])[idx := desired] else old(states[..])
    {
      ok := states[idx] == expected;
      if ok {
        states[idx] := desired;
      }
    }

    method TryRequest(idx: nat) returns (ok: bool)
      requires idx < states.Length
      modifies states
      ensures ok == Wins(old(states[idx]), Op.TryRequest)
      ensures states[..] == old(states[..])[idx := Next(old(states[idx]), Op.TryRequest)]
    {
      ok := CompareExchange(idx, Free, Requested);
    }

    method TryStartWrite(idx: nat) returns (ok: bool)
      requires idx < states.Length
      modifies states
      ensures ok == Wins(old(states[idx]), Op.TryStartWrite)
      ensures states[..] == old(states[..])[idx := Next(old(states[idx]), Op.TryStartWrite)]
    {
      ok := CompareExchange(idx, Requested, Writing);
    }

    method MarkFinished(idx: nat)
      requires idx < states.Length
      modifies states
      ensures states[..] == old(states[..])[idx := Next(old(states[idx]), Op.MarkFinished)]
    {
      states[idx] := Finished;
    }

    method ResetBlock(idx: nat)
      requires idx < states.Length
      modifies states
      ensures states[..] == old(states[..])[idx := Next(old(states[idx]), Op.ResetBlock)]
    {
      states[idx] := Free;
    }

    /** One interleaving: the answers of the calls are those that their histories determine. */
    method Serve(calls: seq<Call>) returns (answers: seq<bool>)
      requires forall i | 0 <= i < |calls| :: calls[i].block < states.Length
      requires forall b | 0 <= b < states.Length :: states[b] == Free
      modifies states
      ensures |answers| == |calls| && forall i | 0 <= i < |calls| :: answers[i] == Won(calls, i)
    {
      answers := [];
      for n := 0 to |calls|
        invariant |answers| == n && forall i | 0 <= i < n :: answers[i] == Won(calls, i)
        invariant forall b | 0 <= b < states.Length :: states[b] == StateAt(calls, b, n)
      {
        var idx, ok := calls[n].block, false;
        if calls[n].op == Op.TryRequest {
          ok := TryRequest(idx);
        } else if calls[n].op == Op.TryStartWrite {
          ok := TryStartWrite(idx);
        } else if calls[n].op == Op.MarkFinished {
          MarkFinished(idx);
        } else {
          ResetBlock(idx);
        }
        answers := answers + [ok];
        assert forall b | 0 <= b < states.Length :: states[b] == states[..][b];
      }
    }
  }
}
