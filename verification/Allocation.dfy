/**
  Whole runs of a block manager: blocks are handed out by selectors, given back and finished
  in any order, and no block ever has two holders.
 */
module Allocation {
  import opened Bitfield
  import opened BitfieldMan
  import opened BlockLengths

  /** The finished blocks, the blocks in use, and the filter. */
  datatype Fields = Fields(have: seq<bool>, use: seq<bool>, filtered: bool, filter: seq<bool>)

  /** What happened: a block was handed out to a client that ignores some, was given back, or was finished. */
  datatype Action =
    | Grant(block: nat, ignore: seq<Byte>)
    | Release(block: nat)
    | Finish(block: nat)
    | Refused

  /** What a client asks for. */
  datatype Request =
    | Take(selector: Selector, minSplitSize: int, ignore: seq<Byte>)
    | GiveBack(index: nat)
    | Complete(index: nat)

  predicate WellSized(s: Fields) {
    |s.have| == |s.use| == |s.filter|
  }

  /** A block handed out is missing, unused, not ignored and inside the enabled filter. */
  predicate Legal(s: Fields, a: Action) {
    && WellSized(s)
    && match a
       case Grant(block, ignore) =>
         && block < |s.use| && block / 8 < |ignore|
         && !s.have[block] && !s.use[block] && !Test(ignore, block) && (s.filtered ==> s.filter[block])
       case Release(block) => block < |s.use|
       case Finish(block) => block < |s.use|
       case Refused => true
  }

  function Apply(s: Fields, a: Action): Fields
    requires Legal(s, a)
  {
    match a
    case Grant(i, _) => s.(use := s.use[i := true])
    case Release(i) => s.(use := s.use[i := false])
    case Finish(i) => s.(have := s.have[i := true])
    case Refused => s
  }

  function BusyIn(s: Fields, ignore: seq<Byte>): (r: seq<bool>)
    requires WellSized(s) && Length(|s.use|) <= |ignore|
    ensures |r| == |s.use|
  {
    seq(|s.use|, i requires 0 <= i < |s.use| =>
      Test(ignore, i) || (s.filtered && !s.filter[i]) || s.have[i] || s.use[i])
  }

  /** The action is what the request gets: the selector's own answer, or what was asked for. */
  ghost predicate Answered(blockLength: int, request: Request, s: Fields, a: Action)
    requires WellSized(s)
  {
    match request
    case Take(selector, minSplitSize, ignore) =>
      && Length(|s.use|) <= |ignore| && selector.Usable(|s.use|)
      && if a.Grant? then
           a.ignore == ignore && selector.Answers(BusyIn(s, ignore), s.use, blockLength, minSplitSize, true, a.block)
         else
           a.Refused? && exists i: nat :: selector.Answers(BusyIn(s, ignore), s.use, blockLength, minSplitSize, false, i)
    case GiveBack(index) => a == if index < |s.use| then Release(index) else Refused
    case Complete(index) => a == if index < |s.use| then Finish(index) else Refused
  }

  /** Such answers are legal. */
  lemma AnsweredIsLegal(blockLength: int, request: Request, s: Fields, a: Action)
    requires WellSized(s) && Answered(blockLength, request, s, a)
    ensures Legal(s, a)
  {
    hide Test, Selector.Answers;
    if a.Grant? {
      AnswerIsSafe(request.selector, BusyIn(s, a.ignore), s.use, blockLength, request.minSplitSize, true, a.block);
    }
  }

  predicate LegalRun(s: Fields, actions: seq<Action>)
    decreases |actions|, 0
  {
    WellSized(s) &&
    (actions == [] ||
     (LegalRun(s, actions[..|actions| - 1]) && Legal(Final(s, actions[..|actions| - 1]), actions[|actions| - 1])))
  }

  function Final(s: Fields, actions: seq<Action>): (r: Fields)
    requires LegalRun(s, actions)
    ensures WellSized(r) && |r.use| == |s.use|
    decreases |actions|, 1
  {
    if actions == [] then s else Apply(Final(s, actions[..|actions| - 1]), actions[|actions| - 1])
  }

  lemma {:induction false} Prefix(s: Fields, actions: seq<Action>, m: nat)
    requires LegalRun(s, actions) && m <= |actions|
    ensures LegalRun(s, actions[..m])
    ensures m < |actions| ==>
              && Legal(Final(s, actions[..m]), actions[m])
              && LegalRun(s, actions[..m + 1])
              && Final(s, actions[..m + 1]) == Apply(Final(s, actions[..m]), actions[m])
    decreases |actions|
  {
    hide Legal, Apply;
    if m == |actions| {
      assert actions[..m] == actions;
    } else {
      var init := actions[..|actions| - 1];
      assert init[..m] == actions[..m];
      Prefix(s, init, m);
      if m == |actions| - 1 {
        assert actions[..m] == init && actions[..m + 1] == actions;
      } else {
        assert init[..m + 1] == actions[..m + 1] && init[m] == actions[m];
      }
    }
  }

  /** Once granted, a block stays in use until it is released. */
  lemma {:induction false} StaysInUse(s: Fields, actions: seq<Action>, b: nat, i: nat, m: nat)
    requires LegalRun(s, actions) && i < m <= |actions|
    requires actions[i].Grant? && actions[i].block == b
    requires forall k | i < k < m :: actions[k] != Release(b)
    ensures LegalRun(s, actions[..m]) && b < |s.use| && Final(s, actions[..m]).use[b]
    decreases m
  {
    hide LegalRun, Final;
    Prefix(s, actions, m - 1);
    if i < m - 1 {
      StaysInUse(s, actions, b, i, m - 1);
    }
  }

  /** No block has two holders: between two grants of a block it has been released. */
  lemma NoTwoHolders(s: Fields, actions: seq<Action>, b: nat, i: nat, j: nat)
    requires LegalRun(s, actions) && i < j < |actions|
    requires actions[i].Grant? && actions[i].block == b
    requires actions[j].Grant? && actions[j].block == b
    ensures exists k :: i < k < j && actions[k] == Release(b)
  {
    hide LegalRun, Final;
    if forall k | i < k < j :: actions[k] != Release(b) {
      Prefix(s, actions, j);
      StaysInUse(s, actions, b, i, j);
    }
  }

  /** Answer number n belongs to request number n, and all of them together are a legal run. */
  ghost predicate Served(s: Fields, blockLength: int, requests: seq<Request>, actions: seq<Action>) {
    && |requests| == |actions| && LegalRun(s, actions)
    && forall n | 0 <= n < |actions| ::
         LegalRun(s, actions[..n]) && Answered(blockLength, requests[n], Final(s, actions[..n]), actions[n])
  }

  lemma ServedNothing(s: Fields, blockLength: int)
    requires WellSized(s)
    ensures LegalRun(s, []) && Served(s, blockLength, [], []) && Final(s, []) == s
  {
  }

  lemma ServedOneMore(s: Fields, blockLength: int, requests: seq<Request>, actions: seq<Action>, r: Request, a: Action)
    requires LegalRun(s, actions) && Served(s, blockLength, requests, actions) && Answered(blockLength, r, Final(s, actions), a)
    ensures Legal(Final(s, actions), a)
    ensures LegalRun(s, actions + [a]) && Served(s, blockLength, requests + [r], actions + [a])
    ensures Final(s, actions + [a]) == Apply(Final(s, actions), a)
  {
    hide Answered, Legal, Apply;
    AnsweredIsLegal(blockLength, r, Final(s, actions), a);
    var more := actions + [a];
    assert more[..|actions|] == actions;
    forall n | 0 <= n < |more|
      ensures LegalRun(s, more[..n]) && Answered(blockLength, (requests + [r])[n], Final(s, more[..n]), more[n])
    {
      if n < |actions| {
        assert more[..n] == actions[..n];
      }
    }
  }

  ghost function FieldsOf(man: BitfieldMan): Fields
    reads man, man.bitfield, man.useBitfield, man.filterBitfield
    requires man.Shape()
  {
    Fields(man.Have(), man.Use(), man.filterEnabled, man.Filter())
  }

  /** Every run of requests against a manager is a legal run that answers them, so NoTwoHolders speaks about it. */
  method Serve(man: BitfieldMan, requests: seq<Request>) returns (actions: seq<Action>)
    requires man.Valid()
    requires forall r | r in requests && r.Take? :: man.bitfieldLength <= |r.ignore| && r.selector.Usable(man.blocks)
    modifies man, man.bitfield, man.useBitfield
    ensures man.Valid()
    ensures man.filterBitfield == old(man.filterBitfield)
    ensures LegalRun(old(FieldsOf(man)), actions) && Served(old(FieldsOf(man)), man.blockLength, requests, actions)
    ensures Final(old(FieldsOf(man)), actions) == FieldsOf(man)
  {
    hide LegalRun, Final, Legal, Apply, Answered, Served, Selector.Usable, BitfieldMan.CacheOk, Bits, BlockCount, Length;
    ghost var s := FieldsOf(man);
    actions := [];
    ServedNothing(s, man.blockLength);
    assert requests[..0] == [];
    for n := 0 to |requests|
      invariant man.Valid() && man.filterBitfield == old(man.filterBitfield)
      invariant LegalRun(s, actions) && Served(s, man.blockLength, requests[..n], actions) && Final(s, actions) == FieldsOf(man)
    {
      var a := ServeOne(man, requests[n]);
      ServedOneMore(s, man.blockLength, requests[..n], actions, requests[n], a);
      assert requests[..n + 1] == requests[..n] + [requests[n]];
      actions := actions + [a];
    }
    assert requests[..|requests|] == requests;
  }

  /** One request; refused requests leave no trace. */
  method ServeOne(man: BitfieldMan, request: Request) returns (a: Action)
    requires man.Valid()
    requires request.Take? ==> man.bitfieldLength <= |request.ignore| && request.selector.Usable(man.blocks)
    modifies man, man.bitfield, man.useBitfield
    ensures man.Valid() && man.filterBitfield == old(man.filterBitfield)
    ensures Answered(man.blockLength, request, old(FieldsOf(man)), a) && Legal(old(FieldsOf(man)), a)
    ensures FieldsOf(man) == Apply(old(FieldsOf(man)), a)
  {
    hide Answered, Legal, Apply, Selector.Usable;
    if request.Take? {
      a := TakeOne(man, request.selector, request.minSplitSize, request.ignore);
    } else if request.GiveBack? {
      a := GiveBackOne(man, request.index);
    } else {
      a := CompleteOne(man, request.index);
    }
  }

  method GiveBackOne(man: BitfieldMan, index: nat) returns (a: Action)
    requires man.Valid()
    modifies man.useBitfield
    ensures man.Valid()
    ensures Answered(man.blockLength, GiveBack(index), old(FieldsOf(man)), a)
    ensures Legal(old(FieldsOf(man)), a) && FieldsOf(man) == Apply(old(FieldsOf(man)), a)
  {
    hide Bits, BlockCount, Length, BitfieldMan.CacheOk;
    ghost var s := FieldsOf(man);
    var ok := man.UnsetUseBit(index);
    a := if ok then Release(index) else Refused;
    assert FieldsOf(man) == s.(use := if ok then s.use[index := false] else s.use);
  }

  method CompleteOne(man: BitfieldMan, index: nat) returns (a: Action)
    requires man.Valid()
    modifies man.bitfield, man`cachedNumMissingBlock, man`cachedNumFilteredBlock, man`cachedFilteredTotalLength,
             man`cachedCompletedLength, man`cachedFilteredCompletedLength
    ensures man.Valid()
    ensures Answered(man.blockLength, Complete(index), old(FieldsOf(man)), a)
    ensures Legal(old(FieldsOf(man)), a) && FieldsOf(man) == Apply(old(FieldsOf(man)), a)
  {
    hide Bits, SpareBitsClear, BlockCount, Length, BitfieldMan.CacheOk;
    ghost var s := FieldsOf(man);
    var ok := man.SetBit(index);
    a := if ok then Finish(index) else Refused;
    assert FieldsOf(man) == s.(have := if ok then s.have[index := true] else s.have);
  }

  method TakeOne(man: BitfieldMan, selector: Selector, minSplitSize: int, ignore: seq<Byte>) returns (a: Action)
    requires man.Valid() && man.bitfieldLength <= |ignore| && selector.Usable(man.blocks)
    modifies man.useBitfield
    ensures man.Valid()
    ensures Answered(man.blockLength, Take(selector, minSplitSize, ignore), old(FieldsOf(man)), a)
    ensures Legal(old(FieldsOf(man)), a) && FieldsOf(man) == Apply(old(FieldsOf(man)), a)
  {
    hide Bits, Selector.Answers, Selector.Usable, Test;
    ghost var s := FieldsOf(man);
    assert man.Busy(ignore) == BusyIn(s, ignore);
    var found, index := man.Acquire(selector, minSplitSize, ignore);
    a := if found then Grant(index, ignore) else Refused;
    AnsweredIsLegal(man.blockLength, Take(selector, minSplitSize, ignore), s, a);
  }
}
