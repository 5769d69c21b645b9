/** The block manager of libaria2/src/BitfieldMan.cc. */
module BitfieldMan {
  import opened Bitfield
  import opened BlockLengths
  import opened SparseSelector
  import opened OtherSelectors

  // ----- fields as values

  /** The field with the bits of [lo, hi) set to `on`. */
  function WithRange(bits: seq<bool>, lo: nat, hi: int, on: bool): (r: seq<bool>)
    ensures |r| == |bits|
  {
    seq(|bits|, i requires 0 <= i < |bits| => if lo <= i < hi then on else bits[i])
  }

  /** The field with the blocks that the bytes [offset, offset + length) touch set to `on`. */
  function TouchedSet(bits: seq<bool>, blockLength: int, offset: nat, length: int, on: bool): (r: seq<bool>)
    requires 0 < blockLength && 0 < length
    ensures |r| == |bits|
  {
    WithRange(bits, BlockAt(blockLength, offset), BlockAt(blockLength, offset + length - 1) + 1, on)
  }

  /** The field with all blocks before and behind those marked as well. */
  function UntouchedSet(bits: seq<bool>, blockLength: int, offset: nat, length: int): (r: seq<bool>)
    requires 0 < blockLength && 0 < length
    ensures |r| == |bits|
  {
    WithRange(WithRange(bits, 0, BlockAt(blockLength, offset), true), BlockAt(blockLength, offset + length - 1) + 1, |bits|, true)
  }

  function And(a: seq<bool>, b: seq<bool>): (r: seq<bool>)
    requires |a| == |b|
    ensures |r| == |a|
  {
    seq(|a|, i requires 0 <= i < |a| => a[i] && b[i])
  }

  /** The blocks still wanted: missing, and inside the filter while it is enabled. */
  function Missing(have: seq<bool>, filtered: bool, filter: seq<bool>): (r: seq<bool>)
    requires |have| == |filter|
    ensures |r| == |have|
  {
    seq(|have|, i requires 0 <= i < |have| => !have[i] && (filtered ==> filter[i]))
  }

  lemma MissingOnes(have: seq<bool>, filter: seq<bool>)
    requires |have| == |filter|
    ensures Ones(Missing(have, true, filter)) == Ones(filter) - Ones(And(have, filter))
    ensures Ones(Missing(have, false, filter)) == |have| - Ones(have)
  {
    MissingInFilter(have, filter);
    MissingOfAll(have, filter);
  }

  lemma {:induction false} MissingInFilter(have: seq<bool>, filter: seq<bool>)
    requires |have| == |filter|
    ensures Ones(Missing(have, true, filter)) == Ones(filter) - Ones(And(have, filter))
    decreases |have|
  {
    if have != [] {
      var n := |have| - 1;
      MissingInFilter(have[..n], filter[..n]);
      assert Missing(have, true, filter)[..n] == Missing(have[..n], true, filter[..n]);
      assert And(have, filter)[..n] == And(have[..n], filter[..n]);
    }
  }

  lemma {:induction false} MissingOfAll(have: seq<bool>, filter: seq<bool>)
    requires |have| == |filter|
    ensures Ones(Missing(have, false, filter)) == |have| - Ones(have)
    decreases |have|
  {
    if have != [] {
      var n := |have| - 1;
      MissingOfAll(have[..n], filter[..n]);
      assert Missing(have, false, filter)[..n] == Missing(have[..n], false, filter[..n]);
    }
  }

  lemma BlocksAreCounted(have: seq<bool>, filtered: bool, filter: seq<bool>)
    requires |have| == |filter|
    ensures Ones(Missing(have, filtered, filter)) == |set i | 0 <= i < |have| && !have[i] && (filtered ==> filter[i])|
    ensures Ones(filter) == |set i | 0 <= i < |have| && filter[i]|
  {
    hide Ones;
    var missing := Missing(have, filtered, filter);
    OnesArePlaces(missing);
    OnesArePlaces(filter);
    assert (set i | 0 <= i < |missing| && missing[i]) == set i | 0 <= i < |have| && !have[i] && (filtered ==> filter[i]);
    assert (set i | 0 <= i < |filter| && filter[i]) == set i | 0 <= i < |have| && filter[i];
  }

  lemma LengthCounted(blockLength: int, totalLength: int, bits: seq<bool>)
    requires 0 < blockLength && 0 < totalLength && |bits| == BlockCount(blockLength, totalLength)
    ensures MarkedLength(blockLength, totalLength, bits) == |BytesIn(bits, blockLength, 0, totalLength)|
  {
    hide MarkedLength, MarkedBytes, BytesIn;
    LengthIsBytes(blockLength, totalLength, bits);
    MarkedBytesCounted(bits, blockLength, 0, totalLength);
  }

  lemma BothBits(a: seq<Byte>, b: seq<Byte>, n: nat)
    requires |a| == |b| && Length(n) <= |a|
    ensures Bits(Both(a, b), n) == And(Bits(a, n), Bits(b, n))
  {
    hide Test;
    forall i | 0 <= i < n
      ensures Test(Both(a, b), i) == (Test(a, i) && Test(b, i))
    {
      BothBit(a, b, i);
    }
  }

  lemma ZeroBits(bytes: seq<Byte>, n: nat)
    requires Length(n) <= |bytes| && forall i | 0 <= i < |bytes| :: bytes[i] == 0
    ensures Bits(bytes, n) == seq(n, i => false) && SpareBitsClear(bytes, n)
  {
  }

  lemma {:induction false} NoneMarked(blockLength: int, totalLength: int, n: nat)
    ensures Ones(seq(n, i => false)) == 0
    ensures MarkedLength(blockLength, totalLength, seq(n, i => false)) == 0
    decreases n
  {
    if n != 0 {
      NoneMarked(blockLength, totalLength, n - 1);
      assert seq(n, i => false)[..n - 1] == seq(n - 1, i => false);
    }
  }

  lemma PutBits(bytes: seq<Byte>, index: nat, on: bool, n: nat)
    requires index < n && Length(n) <= |bytes|
    ensures Bits(bytes[index / 8 := Put(bytes[index / 8], index % 8, on)], n) == Bits(bytes, n)[index := on]
  {
    var bytes' := bytes[index / 8 := Put(bytes[index / 8], index % 8, on)];
    hide Test, Put;
    forall j | 0 <= j < n
      ensures Test(bytes', j) == if j == index then on else Test(bytes, j)
    {
      PutBit(bytes, index, on, j);
    }
  }

  method CopyBytes(from: array<Byte>) returns (to: array<Byte>)
    ensures fresh(to) && to[..] == from[..]
  {
    to := new Byte[from.Length](i requires 0 <= i < from.Length reads from => from[i]);
  }

  class BitfieldMan {
    const blockLength: int
    const totalLength: int
    const blocks: nat
    const bitfieldLength: nat
    const bitfield: array<Byte>
    const useBitfield: array<Byte>
    var filterBitfield: array?<Byte>
    var filterEnabled: bool

    var cachedNumMissingBlock: int
    var cachedNumFilteredBlock: int
    var cachedFilteredTotalLength: int
    var cachedCompletedLength: int
    var cachedFilteredCompletedLength: int

    // ----- abstraction

    ghost predicate Shape()
      reads this`filterBitfield, this`filterEnabled
    {
      && blocks == BlockCount(blockLength, totalLength)
      && bitfieldLength == Length(blocks)
      && bitfield.Length == useBitfield.Length == bitfieldLength
      && bitfield != useBitfield
      && (filterBitfield != null ==>
            filterBitfield.Length == bitfieldLength && filterBitfield != bitfield && filterBitfield != useBitfield)
      && (filterEnabled ==> filterBitfield != null)
    }

    /** The finished blocks. */
    ghost function Have(): (r: seq<bool>)
      reads bitfield
      requires bitfield.Length == Length(blocks)
      ensures |r| == blocks
    {
      Bits(bitfield[..], blocks)
    }

    /** The blocks being downloaded. */
    ghost function Use(): (r: seq<bool>)
      reads useBitfield
      requires useBitfield.Length == Length(blocks)
      ensures |r| == blocks
    {
      Bits(useBitfield[..], blocks)
    }

    /** The filter as it is stored; nothing is marked while there is none. */
    ghost function Filter(): (r: seq<bool>)
      reads this`filterBitfield, filterBitfield
      requires filterBitfield != null ==> filterBitfield.Length == Length(blocks)
      ensures |r| == blocks
    {
      if filterBitfield == null then seq(blocks, i => false) else Bits(filterBitfield[..], blocks)
    }

    /** Every cached counter agrees with its definition over the blocks. */
    ghost predicate CacheOk()
      reads this, bitfield, filterBitfield
      requires Shape()
    {
      && cachedNumMissingBlock == Ones(Missing(Have(), filterEnabled, Filter()))
      && cachedNumFilteredBlock == (if filterEnabled then Ones(Filter()) else 0)
      && cachedFilteredTotalLength == MarkedLength(blockLength, totalLength, Filter())
      && cachedCompletedLength == MarkedLength(blockLength, totalLength, Have())
      && cachedFilteredCompletedLength ==
         MarkedLength(blockLength, totalLength, if filterEnabled then And(Have(), Filter()) else Have())
    }

    /** No spare bit of the last byte is set. */
    ghost predicate SpareClear()
      reads bitfield
      requires bitfield.Length == Length(blocks)
    {
      SpareBitsClear(bitfield[..], blocks)
    }

    ghost predicate Valid()
      reads this, bitfield, useBitfield, filterBitfield
    {
      Shape() && CacheOk()
    }

    // ----- construction

    constructor (blockLength: int, totalLength: int)
      ensures Valid()
      ensures this.blockLength == blockLength && this.totalLength == totalLength
      ensures fresh(bitfield) && fresh(useBitfield) && filterBitfield == null && !filterEnabled
      ensures Have() == Use() == seq(blocks, i => false) && SpareClear()
    {
      this.blockLength, this.totalLength := blockLength, totalLength;
      var n := BlockCount(blockLength, totalLength);
      blocks := n;
      bitfieldLength := Length(n);
      bitfield := new Byte[Length(n)](_ => 0);
      useBitfield := new Byte[Length(n)](_ => 0);
      filterBitfield, filterEnabled := null, false;
      new;
      hide Bits, CacheOk, SpareBitsClear;
      ZeroBits(bitfield[..], blocks);
      ZeroBits(useBitfield[..], blocks);
      UpdateCache();
    }

    /** A copy; a filter that is present but disabled is not taken over. */
    constructor Copy(that: BitfieldMan)
      requires that.Valid()
      ensures Valid()
      ensures blockLength == that.blockLength && totalLength == that.totalLength && blocks == that.blocks
      ensures fresh(bitfield) && fresh(useBitfield) && (filterBitfield != null ==> fresh(filterBitfield))
      ensures Have() == that.Have() && Use() == that.Use() && filterEnabled == that.filterEnabled
      ensures if that.filterEnabled then Filter() == that.Filter() else filterBitfield == null
      ensures SpareClear() == that.SpareClear()
    {
      hide Bits, CacheOk, SpareBitsClear;
      var have := CopyBytes(that.bitfield);
      var use := CopyBytes(that.useBitfield);
      blockLength, totalLength, blocks := that.blockLength, that.totalLength, that.blocks;
      bitfieldLength := that.bitfieldLength;
      bitfield, useBitfield := have, use;
      filterBitfield, filterEnabled := null, false;
      new;
      ghost var had, used, filter := that.Have(), that.Use(), that.Filter();
      if that.filterEnabled {
        filterBitfield := CopyBytes(that.filterBitfield);
      }
      filterEnabled := that.filterEnabled;
      assert Shape() && Have() == had && Use() == used;
      assert filterEnabled ==> Filter() == filter;
      UpdateCache();
    }

    // ----- the cached totals

    method CountMissingBlockNow() returns (n: int)
      requires Shape()
      ensures n == Ones(Missing(Have(), filterEnabled, Filter()))
    {
      MissingOnes(Have(), Filter());
      if filterEnabled {
        var all := CountSetBit(filterBitfield[..], blocks);
        var done := CountSetBitSlow(Both(bitfield[..], filterBitfield[..]), blocks);
        BothBits(bitfield[..], filterBitfield[..], blocks);
        n := all - done;
      } else {
        var done := CountSetBit(bitfield[..], blocks);
        n := blocks - done;
      }
    }

    method CountFilteredBlockNow() returns (n: int)
      requires Shape()
      ensures n == if filterEnabled then Ones(Filter()) else 0
    {
      n := 0;
      if filterEnabled {
        n := CountSetBit(filterBitfield[..], blocks);
      }
    }

    /** The closed form over a field whose marked blocks have been counted. */
    method LengthOf(bytes: seq<Byte>, count: nat) returns (n: int)
      requires blocks == BlockCount(blockLength, totalLength) && |bytes| == Length(blocks)
      requires count == Ones(Bits(bytes, blocks))
      ensures n == MarkedLength(blockLength, totalLength, Bits(bytes, blocks))
    {
      CountedIsMarked(blockLength, totalLength, Bits(bytes, blocks));
      hide MarkedLength, Test;
      if count == 0 {
        n := 0;
      } else if Test(bytes, blocks - 1) {
        n := (count - 1) * blockLength + LastBlockLength(blockLength, totalLength);
      } else {
        n := count * blockLength;
      }
    }

    method GetFilteredTotalLengthNow() returns (n: int)
      requires Shape()
      ensures n == MarkedLength(blockLength, totalLength, Filter())
    {
      hide MarkedLength, Bits, Ones;
      if filterBitfield == null {
        NoneMarked(blockLength, totalLength, blocks);
        return 0;
      }
      var filteredBlocks := CountSetBit(filterBitfield[..], blocks);
      n := LengthOf(filterBitfield[..], filteredBlocks);
    }

    /** getCompletedLength(useFilter). */
    method GetCompletedLengthOf(useFilter: bool) returns (n: int)
      requires Shape()
      ensures n == MarkedLength(blockLength, totalLength, if useFilter && filterEnabled then And(Have(), Filter()) else Have())
    {
      hide MarkedLength, Bits, Ones;
      var count;
      if useFilter && filterEnabled {
        var both := Both(bitfield[..], filterBitfield[..]);
        BothBits(bitfield[..], filterBitfield[..], blocks);
        count := CountSetBitSlow(both, blocks);
        n := LengthOf(both, count);
      } else {
        count := CountSetBit(bitfield[..], blocks);
        n := LengthOf(bitfield[..], count);
      }
    }

    method UpdateCache()
      requires Shape()
      modifies this`cachedNumMissingBlock, this`cachedNumFilteredBlock, this`cachedFilteredTotalLength,
               this`cachedCompletedLength, this`cachedFilteredCompletedLength
      ensures Valid()
    {
      hide Ones, MarkedLength, Missing, Bits;
      cachedNumMissingBlock := CountMissingBlockNow();
      cachedNumFilteredBlock := CountFilteredBlockNow();
      cachedFilteredTotalLength := GetFilteredTotalLengthNow();
      cachedCompletedLength := GetCompletedLengthOf(false);
      cachedFilteredCompletedLength := GetCompletedLengthOf(true);
    }

    // ----- setting and clearing bits

    /** One bit of one of the fields; indexes behind the last block are refused. */
    method SetBitInternal(field: array<Byte>, index: nat, on: bool) returns (ok: bool)
      requires field.Length == Length(blocks)
      modifies field
      ensures ok == (index < blocks)
      ensures Bits(field[..], blocks) ==
              if ok then old(Bits(field[..], blocks))[index := on] else old(Bits(field[..], blocks))
      ensures SpareBitsClear(field[..], blocks) == old(SpareBitsClear(field[..], blocks))
    {
      hide Bits, SpareBitsClear, Put;
      if blocks <= index {
        return false;
      }
      PutBits(field[..], index, on, blocks);
      PutKeepsSpareBits(field[..], index, on, blocks);
      ghost var was := field[..];
      field[index / 8] := Put(field[index / 8], index % 8, on);
      assert field[..] == was[index / 8 := Put(was[index / 8], index % 8, on)];
      ok := true;
    }

    /** The bits of [lo, hi), one after another. */
    method SetRangeInternal(field: array<Byte>, lo: nat, hi: nat, on: bool)
      requires field.Length == Length(blocks) && hi <= blocks
      modifies field
      ensures Bits(field[..], blocks) == WithRange(old(Bits(field[..], blocks)), lo, hi, on)
      ensures SpareBitsClear(field[..], blocks) == old(SpareBitsClear(field[..], blocks))
    {
      hide Bits, SpareBitsClear;
      ghost var was := Bits(field[..], blocks);
      assert WithRange(was, lo, lo, on) == was;
      var i := lo;
      while i < hi
        invariant lo <= i && (i <= hi || i == lo)
        invariant Bits(field[..], blocks) == WithRange(was, lo, i, on)
        invariant SpareBitsClear(field[..], blocks) == old(SpareBitsClear(field[..], blocks))
      {
        var ok := SetBitInternal(field, i, on);
        assert WithRange(was, lo, i, on)[i := on] == WithRange(was, lo, i + 1, on);
        i := i + 1;
      }
      assert WithRange(was, lo, i, on) == WithRange(was, lo, hi, on);
    }

    method SetUseBit(index: nat) returns (ok: bool)
      requires Valid()
      modifies useBitfield
      ensures Valid() && ok == (index < blocks)
      ensures Use() == if ok then old(Use())[index := true] else old(Use())
    {
      hide Bits, CacheOk;
      ok := SetBitInternal(useBitfield, index, true);
    }

    method UnsetUseBit(index: nat) returns (ok: bool)
      requires Valid()
      modifies useBitfield
      ensures Valid() && ok == (index < blocks)
      ensures Use() == if ok then old(Use())[index := false] else old(Use())
    {
      hide Bits, CacheOk;
      ok := SetBitInternal(useBitfield, index, false);
    }

    method SetBit(index: nat) returns (ok: bool)
      requires Valid()
      modifies bitfield, this`cachedNumMissingBlock, this`cachedNumFilteredBlock, this`cachedFilteredTotalLength,
               this`cachedCompletedLength, this`cachedFilteredCompletedLength
      ensures Valid() && ok == (index < blocks)
      ensures Have() == if ok then old(Have())[index := true] else old(Have())
      ensures SpareClear() == old(SpareClear())
    {
      hide Bits, CacheOk, SpareBitsClear;
      ok := SetBitInternal(bitfield, index, true);
      UpdateCache();
    }

    method UnsetBit(index: nat) returns (ok: bool)
      requires Valid()
      modifies bitfield, this`cachedNumMissingBlock, this`cachedNumFilteredBlock, this`cachedFilteredTotalLength,
               this`cachedCompletedLength, this`cachedFilteredCompletedLength
      ensures Valid() && ok == (index < blocks)
      ensures Have() == if ok then old(Have())[index := false] else old(Have())
      ensures SpareClear() == old(SpareClear())
    {
      hide Bits, CacheOk, SpareBitsClear;
      ok := SetBitInternal(bitfield, index, false);
      UpdateCache();
    }

    /** A field of the wrong length is ignored; taking over a field gives up all blocks in use. */
    method SetBitfield(bytes: seq<Byte>)
      requires Valid()
      modifies this, bitfield, useBitfield
      ensures Valid() && filterBitfield == old(filterBitfield) && filterEnabled == old(filterEnabled)
      ensures if bitfieldLength == 0 || |bytes| != bitfieldLength then Have() == old(Have()) && Use() == old(Use())
              else Have() == Bits(bytes, blocks) && Use() == seq(blocks, i => false)
      ensures SpareClear() == if bitfieldLength == 0 || |bytes| != bitfieldLength then old(SpareClear())
                              else SpareBitsClear(bytes, blocks)
    {
      hide Bits, CacheOk, SpareBitsClear;
      if bitfieldLength == 0 || bitfieldLength != |bytes| {
        return;
      }
      forall i | 0 <= i < bitfieldLength {
        bitfield[i] := bytes[i];
      }
      forall i | 0 <= i < bitfieldLength {
        useBitfield[i] := 0;
      }
      ZeroBits(useBitfield[..], blocks);
      assert bitfield[..] == bytes;
      UpdateCache();
    }

    method ClearAllBit()
      requires Valid()
      modifies this, bitfield
      ensures Valid() && filterBitfield == old(filterBitfield) && filterEnabled == old(filterEnabled)
      ensures Have() == seq(blocks, i => false) && SpareClear()
    {
      hide Bits, CacheOk, SpareBitsClear;
      forall i | 0 <= i < bitfieldLength {
        bitfield[i] := 0;
      }
      ZeroBits(bitfield[..], blocks);
      UpdateCache();
    }

    method SetAllBit()
      requires Valid()
      modifies this, bitfield
      ensures Valid() && filterBitfield == old(filterBitfield) && filterEnabled == old(filterEnabled)
      ensures forall i | 0 <= i < blocks :: Have()[i]
      ensures SpareClear() == old(SpareClear())
      ensures 0 < blockLength && 0 < totalLength ==> cachedCompletedLength == totalLength
    {
      hide Bits, CacheOk, SpareBitsClear;
      SetRangeInternal(bitfield, 0, blocks, true);
      UpdateCache();
      if 0 < blockLength && 0 < totalLength {
        AllBlocksAreTotal(blockLength, totalLength, Have());
        CompletedLengthIsCached();
      }
    }

    /** What the five cached totals are: numbers of blocks and of bytes. */
    lemma TotalsAre()
      requires Valid() && 0 < blockLength && 0 < totalLength
      ensures cachedNumMissingBlock == |set i | 0 <= i < blocks && !Have()[i] && (filterEnabled ==> Filter()[i])|
      ensures cachedNumFilteredBlock == if filterEnabled then |set i | 0 <= i < blocks && Filter()[i]| else 0
      ensures cachedCompletedLength == |BytesIn(Have(), blockLength, 0, totalLength)|
      ensures cachedFilteredTotalLength == |BytesIn(Filter(), blockLength, 0, totalLength)|
      ensures cachedFilteredCompletedLength ==
              |BytesIn(if filterEnabled then And(Have(), Filter()) else Have(), blockLength, 0, totalLength)|
    {
      hide Bits, Ones, MarkedLength, BytesIn;
      BlocksAreCounted(Have(), filterEnabled, Filter());
      LengthCounted(blockLength, totalLength, Have());
      LengthCounted(blockLength, totalLength, Filter());
      LengthCounted(blockLength, totalLength, And(Have(), Filter()));
    }

    lemma CompletedLengthIsCached()
      requires Valid()
      ensures cachedCompletedLength == MarkedLength(blockLength, totalLength, Have())
    {
    }

    method ClearAllUseBit()
      requires Valid()
      modifies this, useBitfield
      ensures Valid() && filterBitfield == old(filterBitfield) && filterEnabled == old(filterEnabled)
      ensures Use() == seq(blocks, i => false)
    {
      hide Bits, CacheOk;
      forall i | 0 <= i < bitfieldLength {
        useBitfield[i] := 0;
      }
      ZeroBits(useBitfield[..], blocks);
      UpdateCache();
    }

    method SetAllUseBit()
      requires Valid()
      modifies useBitfield
      ensures Valid()
      ensures forall i | 0 <= i < blocks :: Use()[i]
    {
      hide Bits, CacheOk;
      SetRangeInternal(useBitfield, 0, blocks, true);
    }

    // ----- filters

    method EnsureFilterBitfield()
      requires Shape()
      modifies this`filterBitfield
      ensures Shape() && filterBitfield != null
      ensures filterBitfield == old(filterBitfield) || (old(filterBitfield) == null && fresh(filterBitfield))
      ensures Filter() == old(Filter())
    {
      if filterBitfield == null {
        filterBitfield := new Byte[bitfieldLength](_ => 0);
      }
    }

    /** Marks the blocks that share a byte with [offset, offset + length). */
    method AddFilter(offset: nat, length: int)
      requires Valid() && (0 < length ==> 0 < blockLength)
      modifies this, filterBitfield
      ensures Valid() && filterBitfield != null && filterEnabled == old(filterEnabled)
      ensures filterBitfield == old(filterBitfield) || fresh(filterBitfield)
      ensures forall i | 0 <= i < blocks ::
                Filter()[i] == (old(Filter())[i] ||
                                (0 < length && offset < (i + 1) * blockLength && i * blockLength < offset + length))
    {
      hide Bits, CacheOk, TouchedSet, BlockCount, SpareBitsClear;
      EnsureFilterBitfield();
      if 0 < length {
        TouchedBits(Filter(), blockLength, offset, length, true);
        FilterRange(offset, length, true);
      }
      UpdateCache();
    }

    /** Clears the blocks that share a byte with [offset, offset + length). */
    method RemoveFilter(offset: nat, length: int)
      requires Valid() && (0 < length ==> 0 < blockLength)
      modifies this, filterBitfield
      ensures Valid() && filterBitfield != null && filterEnabled == old(filterEnabled)
      ensures filterBitfield == old(filterBitfield) || fresh(filterBitfield)
      ensures forall i | 0 <= i < blocks ::
                Filter()[i] == (old(Filter())[i] &&
                                !(0 < length && offset < (i + 1) * blockLength && i * blockLength < offset + length))
    {
      hide Bits, CacheOk, TouchedSet, BlockCount, SpareBitsClear;
      EnsureFilterBitfield();
      if 0 < length {
        TouchedBits(Filter(), blockLength, offset, length, false);
        FilterRange(offset, length, false);
      }
      UpdateCache();
    }

    /** The loop of addFilter and removeFilter. */
    method FilterRange(offset: nat, length: int, on: bool)
      requires Shape() && filterBitfield != null && 0 < length && 0 < blockLength
      modifies filterBitfield
      ensures Filter() == TouchedSet(old(Filter()), blockLength, offset, length, on)
    {
      hide Bits, BlockAt, BlockCount, SpareBitsClear;
      var startBlock, endBlock := BlockAt(blockLength, offset), BlockAt(blockLength, offset + length - 1);
      var end := if endBlock + 1 < blocks then endBlock + 1 else blocks;
      ghost var was := Filter();
      SetRangeInternal(filterBitfield, startBlock, end, on);
      assert WithRange(was, startBlock, end, on) == WithRange(was, startBlock, endBlock + 1, on);
    }

    lemma BlocksHaveLength()
      requires Shape()
      ensures 0 < blocks ==> 0 < blockLength
    {
    }

    /** Marks the blocks that share no byte with [offset, offset + length). */
    method AddNotFilter(offset: nat, length: int)
      requires Valid()
      modifies this, filterBitfield
      ensures Valid() && filterBitfield != null && filterEnabled == old(filterEnabled)
      ensures filterBitfield == old(filterBitfield) || fresh(filterBitfield)
      ensures forall i | 0 <= i < blocks ::
                Filter()[i] == (old(Filter())[i] ||
                                (0 < length && !(offset < (i + 1) * blockLength && i * blockLength < offset + length)))
    {
      hide Bits, CacheOk, UntouchedSet, BlockCount, SpareBitsClear;
      BlocksHaveLength();
      EnsureFilterBitfield();
      if 0 < length && 0 < blocks {
        UntouchedBits(Filter(), blockLength, offset, length);
        FilterOutside(offset, length);
      }
      UpdateCache();
    }

    /** The two loops of addNotFilter. */
    method FilterOutside(offset: nat, length: int)
      requires Shape() && filterBitfield != null && 0 < length && 0 < blockLength
      modifies filterBitfield
      ensures Filter() == UntouchedSet(old(Filter()), blockLength, offset, length)
    {
      hide Bits, BlockAt, BlockCount, SpareBitsClear;
      var startBlock := BlockAt(blockLength, offset);
      if blocks <= startBlock {
        startBlock := blocks;
      }
      var endBlock := BlockAt(blockLength, offset + length - 1);
      ghost var was := Filter();
      SetRangeInternal(filterBitfield, 0, startBlock, true);
      assert WithRange(was, 0, startBlock, true) == WithRange(was, 0, BlockAt(blockLength, offset), true);
      SetRangeInternal(filterBitfield, endBlock + 1, blocks, true);
    }

    method EnableFilter()
      requires Valid()
      modifies this
      ensures Valid() && filterEnabled && filterBitfield != null
      ensures filterBitfield == old(filterBitfield) || fresh(filterBitfield)
      ensures Filter() == old(Filter())
    {
      hide Bits, CacheOk;
      EnsureFilterBitfield();
      filterEnabled := true;
      UpdateCache();
    }

    method DisableFilter()
      requires Valid()
      modifies this
      ensures Valid() && !filterEnabled && filterBitfield == old(filterBitfield) && Filter() == old(Filter())
    {
      hide Bits, CacheOk;
      filterEnabled := false;
      UpdateCache();
    }

    method ClearFilter()
      requires Valid()
      modifies this
      ensures Valid() && !filterEnabled && filterBitfield == null
    {
      hide Bits, CacheOk;
      filterBitfield := null;
      filterEnabled := false;
      UpdateCache();
    }

    /** Every index of [startIndex, endIndex], one setBit after another. */
    method SetBitRange(startIndex: nat, endIndex: nat)
      requires Valid()
      modifies bitfield, this`cachedNumMissingBlock, this`cachedNumFilteredBlock, this`cachedFilteredTotalLength,
               this`cachedCompletedLength, this`cachedFilteredCompletedLength
      ensures Valid()
      ensures forall i | 0 <= i < blocks :: Have()[i] == if startIndex <= i <= endIndex then true else old(Have())[i]
      ensures SpareClear() == old(SpareClear())
    {
      hide Bits, CacheOk, SpareBitsClear;
      ghost var was := Have();
      assert WithRange(was, startIndex, startIndex, true) == was;
      var i := startIndex;
      while i <= endIndex
        invariant Valid() && startIndex <= i && (i <= endIndex + 1 || i == startIndex)
        invariant Have() == WithRange(was, startIndex, i, true)
        invariant SpareClear() == old(SpareClear())
      {
        var ok := SetBit(i);
        assert Have() == WithRange(was, startIndex, i + 1, true);
        i := i + 1;
      }
      assert WithRange(was, startIndex, i, true) == WithRange(was, startIndex, endIndex + 1, true);
      UpdateCache();
    }

    method UnsetBitRange(startIndex: nat, endIndex: nat)
      requires Valid()
      modifies bitfield, this`cachedNumMissingBlock, this`cachedNumFilteredBlock, this`cachedFilteredTotalLength,
               this`cachedCompletedLength, this`cachedFilteredCompletedLength
      ensures Valid()
      ensures forall i | 0 <= i < blocks :: Have()[i] == if startIndex <= i <= endIndex then false else old(Have())[i]
      ensures SpareClear() == old(SpareClear())
    {
      hide Bits, CacheOk, SpareBitsClear;
      ghost var was := Have();
      assert WithRange(was, startIndex, startIndex, false) == was;
      var i := startIndex;
      while i <= endIndex
        invariant Valid() && startIndex <= i && (i <= endIndex + 1 || i == startIndex)
        invariant Have() == WithRange(was, startIndex, i, false)
        invariant SpareClear() == old(SpareClear())
      {
        var ok := UnsetBit(i);
        assert Have() == WithRange(was, startIndex, i + 1, false);
        i := i + 1;
      }
      assert WithRange(was, startIndex, i, false) == WithRange(was, startIndex, endIndex + 1, false);
      UpdateCache();
    }

    // ----- queries

    method IsBitSet(index: nat) returns (r: bool)
      requires Shape() && index < blocks
      ensures r == Have()[index]
    {
      r := Test(bitfield[..], index);
    }

    /** True exactly when every block is finished and no spare bit of the last byte is set. */
    method IsAllBitSet() returns (r: bool)
      requires Shape()
      ensures r <==> (forall i | 0 <= i < blocks :: Have()[i]) && SpareClear()
    {
      r := TestAllBitSet(bitfield[..], blocks);
      assert forall i | 0 <= i < blocks :: Have()[i] == Test(bitfield[..], i);
    }

    /**
      The finished bytes of [offset, offset + length), clipped to the total length. A negative length has
      no meaning; the source takes it as long as its loop stays inside the field.
     */
    method GetOffsetCompletedLength(offset: nat, length: int) returns (res: int)
      requires Shape() && (length != 0 && offset < totalLength ==> 0 < blockLength)
      requires length < 0 && offset < totalLength ==> StaysInside(blockLength, offset, length)
      ensures length == 0 || totalLength <= offset ==> res == 0
      ensures 0 < length && offset < totalLength ==>
                res == MarkedBytes(Have(), blockLength, offset, ClippedEnd(totalLength, offset, length))
      ensures length < 0 && offset < totalLength ==>
                offset / blockLength < blocks && res == BackwardLength(Have(), blockLength, offset, length)
    {
      if length == 0 || totalLength <= offset {
        return 0;
      }
      if length < 0 {
        res := BackwardCompleted(offset, length);
        return;
      }
      var len := if totalLength < offset + length then totalLength - offset else length;
      res := CompletedInRange(offset, len);
    }

    /** The same code with a negative length: the last block of the range stands at or before the first. */
    method BackwardCompleted(offset: nat, length: int) returns (res: int)
      requires Shape() && 0 < blockLength && length < 0 && offset < totalLength && StaysInside(blockLength, offset, length)
      ensures offset / blockLength < blocks && res == BackwardLength(Have(), blockLength, offset, length)
    {
      RangeBlocks(blockLength, totalLength, offset, offset + 1);
      BackwardBlocks(blockLength, offset, length);
      hide MarkedBytes, Bits, BlockCount, Truncated;
      var start, end := offset / blockLength, Truncated(offset + length - 1, blockLength);
      var first := IsBitSet(start);
      if start == end {
        res := if first then length else 0;
      } else {
        res := BackwardParts(start, end, offset, offset + length, first);
      }
    }

    /** The rest of the block of the first byte, and the beginning of the one of the last. */
    method BackwardParts(start: nat, end: nat, lo: nat, hi: nat, first: bool) returns (res: int)
      requires Shape() && 0 < blockLength && end < blocks && start < blocks && first == Have()[start]
      requires start * blockLength <= lo < (start + 1) * blockLength
      requires end * blockLength < hi <= (end + 1) * blockLength
      ensures res == MarkedBytes(Have(), blockLength, lo, (start + 1) * blockLength) +
                     MarkedBytes(Have(), blockLength, end * blockLength, hi)
    {
      hide MarkedBytes, Bits, BlockCount;
      MarkedInBlock(Have(), blockLength, start, lo, (start + 1) * blockLength);
      MarkedInBlock(Have(), blockLength, end, end * blockLength, hi);
      var last := IsBitSet(end);
      res := (if first then (start + 1) * blockLength - lo else 0) + (if last then hi - end * blockLength else 0);
    }

    /** The loop of getOffsetCompletedLength, for a range inside the total length. */
    method CompletedInRange(offset: nat, length: nat) returns (res: int)
      requires Shape() && 0 < blockLength && 0 < length && offset + length <= totalLength
      ensures res == MarkedBytes(Have(), blockLength, offset, offset + length)
    {
      hide MarkedBytes, Bits;
      var hi := offset + length;
      var start, end := offset / blockLength, (hi - 1) / blockLength;
      RangeBlocks(blockLength, totalLength, offset, hi);
      res := 0;
      if start == end {
        MarkedInBlock(Have(), blockLength, start, offset, hi);
        var marked := IsBitSet(start);
        if marked {
          res := length;
        }
        return;
      }
      MarkedInBlock(Have(), blockLength, start, offset, (start + 1) * blockLength);
      var first := IsBitSet(start);
      if first {
        res := (start + 1) * blockLength - offset;
      }
      var middle := CompletedBlocks(start + 1, end);
      MarkedBytesSplit(Have(), blockLength, offset, (start + 1) * blockLength, end * blockLength);
      MarkedInBlock(Have(), blockLength, end, end * blockLength, hi);
      MarkedBytesSplit(Have(), blockLength, offset, end * blockLength, hi);
      var last := IsBitSet(end);
      res := res + middle + if last then hi - end * blockLength else 0;
    }

    /** Whole blocks of [from, to). */
    method CompletedBlocks(from: nat, to: nat) returns (res: int)
      requires Shape() && 0 < blockLength && from <= to <= blocks
      ensures from * blockLength <= to * blockLength
      ensures res == MarkedBytes(Have(), blockLength, from * blockLength, to * blockLength)
    {
      hide Bits;
      res := 0;
      var i := from;
      while i < to
        invariant from <= i <= to && from * blockLength <= i * blockLength
        invariant res == MarkedBytes(Have(), blockLength, from * blockLength, i * blockLength)
      {
        hide MarkedBytes;
        Monotone(blockLength, i, i + 1);
        assert (i + 1) * blockLength == i * blockLength + blockLength;
        MarkedInBlock(Have(), blockLength, i, i * blockLength, (i + 1) * blockLength);
        MarkedBytesSplit(Have(), blockLength, from * blockLength, i * blockLength, (i + 1) * blockLength);
        var marked := IsBitSet(i);
        if marked {
          res := res + blockLength;
        }
        i := i + 1;
      }
    }

    /** Exactly when getOffsetCompletedLength would give the whole, non-empty, clipped range. */
    method IsBitSetOffsetRange(offset: nat, length: int) returns (r: bool)
      requires Shape() && (0 < length && offset < totalLength ==> 0 < blockLength)
      ensures r <==>
              && 0 < length && offset < totalLength
              && MarkedBytes(Have(), blockLength, offset, ClippedEnd(totalLength, offset, length)) ==
                 ClippedEnd(totalLength, offset, length) - offset
    {
      hide MarkedBytes, Bits;
      if length <= 0 {
        return false;
      }
      if totalLength <= offset {
        return false;
      }
      var hi := ClippedEnd(totalLength, offset, length);
      var startBlock, endBlock := offset / blockLength, (hi - 1) / blockLength;
      RangeBlocks(blockLength, totalLength, offset, hi);
      AllBytesMarked(Have(), blockLength, offset, hi);
      var i := startBlock;
      while i <= endBlock
        invariant startBlock <= i <= endBlock + 1
        invariant forall j | startBlock <= j < i :: Have()[j]
      {
        var marked := IsBitSet(i);
        if !marked {
          ByteInBlock(blockLength, offset, hi, i);
          ghost var p := if i == startBlock then offset else i * blockLength;
          assert !HasByte(Have(), blockLength, p);
          return false;
        }
        i := i + 1;
      }
      forall p | offset <= p < hi
        ensures HasByte(Have(), blockLength, p)
      {
        BlocksBetween(blockLength, offset, hi, p);
      }
      r := true;
    }

    // ----- selectors

    /** The blocks that no selector may hand out. */
    ghost function Busy(ignore: seq<Byte>): (r: seq<bool>)
      reads this, bitfield, useBitfield, filterBitfield
      requires Shape() && bitfieldLength <= |ignore|
      ensures |r| == blocks
    {
      var have, use, filter, enabled := Have(), Use(), Filter(), filterEnabled;
      seq(blocks, i requires 0 <= i < blocks =>
        Test(ignore, i) || (enabled && !filter[i]) || have[i] || use[i])
    }

    /** The expression array(ignore) | ~array(filter) | array(have) | array(use) over the blocks. */
    method BusyField(ignore: seq<Byte>) returns (bits: seq<bool>)
      requires Shape() && bitfieldLength <= |ignore|
      ensures bits == Busy(ignore)
    {
      var filter := if filterEnabled then filterBitfield[..] else [];
      var bytes := Unavailable(ignore, filterEnabled, filter, bitfield[..], useBitfield[..]);
      bits := Bits(bytes, blocks);
      hide Test, Unavailable;
      forall i | 0 <= i < blocks
        ensures Test(bytes, i) == Busy(ignore)[i]
      {
        UnavailableBit(ignore, filterEnabled, filter, bitfield[..], useBitfield[..], i);
      }
    }

    method GetSparseMissingUnusedIndex(minSplitSize: int, ignore: seq<Byte>) returns (found: bool, index: nat)
      requires Shape() && bitfieldLength <= |ignore|
      ensures SparseAnswer(Busy(ignore), Use(), blockLength, minSplitSize, found, index)
      ensures found ==> index < blocks && !Busy(ignore)[index]
    {
      hide Bits, SparseAnswer;
      var bits := BusyField(ignore);
      found, index := SparseSelector.GetSparseMissingUnusedIndex(minSplitSize, bits, Bits(useBitfield[..], blocks), blockLength);
      if found {
        SparseIsSafe(Busy(ignore), Use(), blockLength, minSplitSize, index);
      }
    }

    method GetGeomMissingUnusedIndex(minSplitSize: int, ignore: seq<Byte>, base: real, offsetIndex: nat)
      returns (found: bool, index: nat)
      requires Shape() && bitfieldLength <= |ignore| && base > 1.0
      ensures GeomAnswer(Busy(ignore), Use(), blockLength, minSplitSize, base, offsetIndex, found, index)
      ensures found ==> index < blocks && !Busy(ignore)[index]
    {
      hide Bits, GeomAnswer;
      var bits := BusyField(ignore);
      found, index := OtherSelectors.GetGeomMissingUnusedIndex(
        minSplitSize, bits, Bits(useBitfield[..], blocks), blockLength, base, offsetIndex);
      if found {
        GeomIsSafe(Busy(ignore), Use(), blockLength, minSplitSize, base, offsetIndex, index);
      }
    }

    /** The ranged form; the other one searches [0, blocks). */
    method GetInorderMissingUnusedIndex(startIndex: nat, endIndex: nat, minSplitSize: int, ignore: seq<Byte>)
      returns (found: bool, index: nat)
      requires Shape() && bitfieldLength <= |ignore| && startIndex < blocks
      ensures InorderAnswer(Busy(ignore), Use(), blockLength, minSplitSize, startIndex,
                            if endIndex < blocks then endIndex else blocks, found, index)
      ensures found ==> index < blocks && !Busy(ignore)[index]
    {
      hide Bits, InorderAnswer;
      var bits := BusyField(ignore);
      var last := if endIndex < blocks then endIndex else blocks;
      found, index := OtherSelectors.GetInorderMissingUnusedIndex(
        startIndex, last, minSplitSize, bits, Bits(useBitfield[..], blocks), blockLength);
      if found {
        InorderIsSafe(Busy(ignore), Use(), blockLength, minSplitSize, startIndex, last, index);
      }
    }

    /** RandomStreamPieceSelector::select; `start` is the random block. */
    method GetRandomMissingUnusedIndex(start: nat, minSplitSize: int, ignore: seq<Byte>) returns (found: bool, index: nat)
      requires Shape() && bitfieldLength <= |ignore| && start < blocks
      ensures RandomAnswer(Busy(ignore), Use(), blockLength, minSplitSize, start, found, index)
    {
      hide Bits, InorderAnswer, Busy;
      found, index := GetInorderMissingUnusedIndex(start, blocks, minSplitSize, ignore);
      if found {
        return;
      }
      NothingFound(Busy(ignore), Use(), blockLength, minSplitSize, start, blocks, index);
      found, index := GetInorderMissingUnusedIndex(0, start, minSplitSize, ignore);
      if found {
        return;
      }
      NothingFound(Busy(ignore), Use(), blockLength, minSplitSize, 0, start, index);
      found, index := GetInorderMissingUnusedIndex(0, blocks, minSplitSize, ignore);
    }

    // ----- allocation

    /** One call of the configured selector. */
    method Choose(selector: Selector, minSplitSize: int, ignore: seq<Byte>) returns (found: bool, index: nat)
      requires Shape() && bitfieldLength <= |ignore| && selector.Usable(blocks)
      ensures selector.Answers(Busy(ignore), Use(), blockLength, minSplitSize, found, index)
    {
      hide Bits, SparseAnswer, GeomAnswer, InorderAnswer, RandomAnswer, Busy;
      if selector.Sparse? {
        found, index := GetSparseMissingUnusedIndex(minSplitSize, ignore);
      } else if selector.Geometric? {
        found, index := GetGeomMissingUnusedIndex(minSplitSize, ignore, selector.base, selector.offset);
      } else if selector.Inorder? {
        found, index := GetInorderMissingUnusedIndex(0, blocks, minSplitSize, ignore);
      } else if selector.Ranged? {
        found, index := GetInorderMissingUnusedIndex(selector.start, selector.end, minSplitSize, ignore);
      } else {
        found, index := GetRandomMissingUnusedIndex(selector.start, minSplitSize, ignore);
      }
    }

    lemma BusyIncludes(ignore: seq<Byte>)
      requires Shape() && bitfieldLength <= |ignore|
      ensures forall i | 0 <= i < blocks :: Have()[i] || Use()[i] ==> Busy(ignore)[i]
    {
    }

    /** A selector call followed by setUseBit on its result. */
    method Acquire(selector: Selector, minSplitSize: int, ignore: seq<Byte>) returns (found: bool, index: nat)
      requires Valid() && bitfieldLength <= |ignore| && selector.Usable(blocks)
      modifies useBitfield
      ensures Valid()
      ensures old(selector.Answers(Busy(ignore), Use(), blockLength, minSplitSize, found, index))
      ensures found ==> index < blocks && !old(Busy(ignore))[index]
      ensures Use() == if found then old(Use())[index := true] else old(Use())
      ensures forall i | 0 <= i < blocks :: Busy(ignore)[i] == (old(Busy(ignore))[i] || (found && i == index))
    {
      hide Bits, CacheOk, Selector.Answers;
      found, index := Choose(selector, minSplitSize, ignore);
      AnswerIsSafe(selector, Busy(ignore), Use(), blockLength, minSplitSize, found, index);
      if found {
        var ok := SetUseBit(index);
      }
    }

    /** With one block to split off, a selector hands out every free block it reaches exactly once and then runs dry. */
    method Drain(selector: Selector, minSplitSize: int, ignore: seq<Byte>) returns (grants: seq<nat>)
      requires Valid() && bitfieldLength <= |ignore| && selector.Usable(blocks)
      requires 0 < blockLength && minSplitSize <= blockLength
      modifies useBitfield
      ensures Valid()
      ensures (set i | i in grants) == old(FreeBlocks(selector, Busy(ignore)))
      ensures |grants| == |old(FreeBlocks(selector, Busy(ignore)))|
    {
      hide Bits, CacheOk, Busy, Use, Have, Selector.Answers, Selector.Usable, Selector.Reaches, FreeBlocks;
      grants := [];
      ghost var was := Busy(ignore);
      ghost var taken: set<nat> := {};
      var found := true;
      while found
        invariant Valid()
        invariant taken == (set i | i in grants) && |taken| == |grants| && taken <= FreeBlocks(selector, was)
        invariant forall i | 0 <= i < blocks :: Busy(ignore)[i] == (was[i] || i in taken)
        invariant !found ==> FreeBlocks(selector, was) <= taken
        decreases found, |FreeBlocks(selector, was) - taken|
      {
        var index;
        ghost var before, use := Busy(ignore), Use();
        BusyIncludes(ignore);
        found, index := Acquire(selector, minSplitSize, ignore);
        AnswerIsComplete(selector, before, use, blockLength, minSplitSize, found, index);
        if !found {
          NothingLeft(selector, before, was, taken);
        } else {
          GrantOne(selector, before, was, taken, index);
          taken := taken + {index};
          grants := grants + [index];
        }
      }
    }
  }

  /** A download whose blocks have all been set is complete, however many they are. */
  method Complete(blockLength: int, totalLength: int) returns (all: bool)
    ensures all
  {
    hide SpareBitsClear, BlockCount, Length, BitfieldMan.CacheOk;
    var man := new BitfieldMan(blockLength, totalLength);
    man.SetAllBit();
    all := man.IsAllBitSet();
  }

  /** A field taken over from elsewhere counts as complete exactly when all blocks are marked and no spare bit is. */
  method CompleteByField(blockLength: int, totalLength: int, bytes: seq<Byte>) returns (all: bool)
    requires |bytes| == Length(BlockCount(blockLength, totalLength)) && bytes != []
    ensures var n := BlockCount(blockLength, totalLength); all <==> AllBitsSet(bytes, n) && SpareBitsClear(bytes, n)
  {
    hide SpareBitsClear, BlockCount, BitfieldMan.CacheOk, Test;
    var man := new BitfieldMan(blockLength, totalLength);
    man.SetBitfield(bytes);
    all := man.IsAllBitSet();
    assert forall i | 0 <= i < man.blocks :: man.Have()[i] == Test(bytes, i);
  }

  /** A filter added to one block counts in the manager and not in its copy, once both enable their filters. */
  method CopyForgetsFilter() returns (original: int, copy: int)
    ensures original == 1 && copy == 0
  {
    hide Bits, BitfieldMan.CacheOk, BlockCount, Length, SpareBitsClear, Ones;
    OneBlock();
    var man := new BitfieldMan(1, 1);
    man.AddFilter(0, 1);
    assert man.Filter() == [true];
    var other := new BitfieldMan.Copy(man);
    assert other.Filter() == [false];
    man.EnableFilter();
    other.EnableFilter();
    FilteredIsCached(man);
    FilteredIsCached(other);
    original, copy := man.cachedNumFilteredBlock, other.cachedNumFilteredBlock;
  }

  lemma OneBlock()
    ensures BlockCount(1, 1) == 1 && Ones([true]) == 1 && Ones([false]) == 0
  {
    assert [true][..0] == [] && [false][..0] == [];
  }

  lemma FilteredIsCached(man: BitfieldMan)
    requires man.Valid() && man.filterEnabled
    ensures man.cachedNumFilteredBlock == Ones(man.Filter())
  {
  }

  /** The way a piece selector is configured. */
  datatype Selector =
    | Sparse
    | Geometric(base: real, offset: nat)
    | Inorder
    | Ranged(start: nat, end: nat)
    | Random(start: nat)
  {
    predicate Usable(blocks: nat) {
      match this
      case Sparse => true
      case Geometric(base, _) => base > 1.0
      case Inorder => 0 < blocks
      case Ranged(start, _) => start < blocks
      case Random(start) => start < blocks
    }

    /** The blocks it can hand out when one block may be split off. */
    predicate Reaches(i: nat) {
      Ranged? ==> Searched(start, end, i)
    }

    ghost predicate Answers(busy: seq<bool>, use: seq<bool>, blockLength: int, minSplitSize: int, found: bool, index: nat)
      requires |busy| == |use| && Usable(|busy|)
    {
      match this
      case Sparse => SparseAnswer(busy, use, blockLength, minSplitSize, found, index)
      case Geometric(base, offset) => GeomAnswer(busy, use, blockLength, minSplitSize, base, offset, found, index)
      case Inorder => InorderAnswer(busy, use, blockLength, minSplitSize, 0, |busy|, found, index)
      case Ranged(start, end) =>
        InorderAnswer(busy, use, blockLength, minSplitSize, start, if end < |busy| then end else |busy|, found, index)
      case Random(start) => RandomAnswer(busy, use, blockLength, minSplitSize, start, found, index)
    }
  }

  lemma NothingFound(bits: seq<bool>, use: seq<bool>, blockLength: int, minSplitSize: int, startIndex: nat, lastIndex: nat, index: nat)
    requires |bits| == |use| && InorderAnswer(bits, use, blockLength, minSplitSize, startIndex, lastIndex, false, index)
    ensures !InorderFinds(bits, use, blockLength, minSplitSize, startIndex, lastIndex)
  {
    hide InorderAnswer;
    forall i: nat
      ensures !InorderAnswer(bits, use, blockLength, minSplitSize, startIndex, lastIndex, true, i)
    {
      InorderIsExclusive(bits, use, blockLength, minSplitSize, startIndex, lastIndex, index, i);
    }
  }

  /** Whatever selector answers, an index handed out is a free block. */
  lemma AnswerIsSafe(selector: Selector, busy: seq<bool>, use: seq<bool>, blockLength: int, minSplitSize: int, found: bool, index: nat)
    requires |busy| == |use| && selector.Usable(|busy|)
    requires selector.Answers(busy, use, blockLength, minSplitSize, found, index)
    ensures found ==> index < |busy| && !busy[index]
  {
    hide SparseAnswer, GeomAnswer, InorderAnswer;
    if found {
      match selector
      case Sparse => SparseIsSafe(busy, use, blockLength, minSplitSize, index);
      case Geometric(base, offset) => GeomIsSafe(busy, use, blockLength, minSplitSize, base, offset, index);
      case Inorder => InorderIsSafe(busy, use, blockLength, minSplitSize, 0, |busy|, index);
      case Ranged(start, end) =>
        InorderIsSafe(busy, use, blockLength, minSplitSize, start, if end < |busy| then end else |busy|, index);
      case Random(start) => RandomIsSafe(busy, use, blockLength, minSplitSize, start, index);
    }
  }

  lemma RandomIsSafe(busy: seq<bool>, use: seq<bool>, blockLength: int, minSplitSize: int, start: nat, index: nat)
    requires |busy| == |use| && RandomAnswer(busy, use, blockLength, minSplitSize, start, true, index)
    ensures index < |busy| && !busy[index]
  {
    hide InorderAnswer, InorderFinds;
    if InorderFinds(busy, use, blockLength, minSplitSize, start, |busy|) {
      InorderIsSafe(busy, use, blockLength, minSplitSize, start, |busy|, index);
    } else if InorderFinds(busy, use, blockLength, minSplitSize, 0, start) {
      InorderIsSafe(busy, use, blockLength, minSplitSize, 0, start, index);
    } else {
      InorderIsSafe(busy, use, blockLength, minSplitSize, 0, |busy|, index);
    }
  }

  /** With one block to split off, a selector fails exactly when nothing it reaches is free. */
  lemma AnswerIsComplete(selector: Selector, busy: seq<bool>, use: seq<bool>, blockLength: int, minSplitSize: int, found: bool, index: nat)
    requires |busy| == |use| && selector.Usable(|busy|) && 0 < blockLength && minSplitSize <= blockLength
    requires forall i | 0 <= i < |use| :: use[i] ==> busy[i]
    requires selector.Answers(busy, use, blockLength, minSplitSize, found, index)
    ensures found ==> selector.Reaches(index)
    ensures found <==> exists i: nat :: i < |busy| && selector.Reaches(i) && !busy[i]
  {
    hide SparseAnswer, GeomAnswer, InorderAnswer, Available;
    AnswerIsSafe(selector, busy, use, blockLength, minSplitSize, found, index);
    AvailableIsFree(busy, use);
    match selector
    case Sparse => SparseIsComplete(busy, use, blockLength, minSplitSize, found, index);
    case Geometric(base, offset) => GeomIsComplete(busy, use, blockLength, minSplitSize, base, offset, found, index);
    case Inorder => InorderIsComplete(busy, use, blockLength, minSplitSize, 0, |busy|, found, index);
    case Ranged(start, end) =>
      InorderIsComplete(busy, use, blockLength, minSplitSize, start, if end < |busy| then end else |busy|, found, index);
    case Random(start) => RandomIsComplete(busy, use, blockLength, minSplitSize, start, found, index);
  }

  lemma AvailableIsFree(busy: seq<bool>, use: seq<bool>)
    requires |busy| == |use| && forall i | 0 <= i < |use| :: use[i] ==> busy[i]
    ensures forall i: nat :: Available(busy, use, i) <==> i < |busy| && !busy[i]
  {
  }

  lemma RandomIsComplete(busy: seq<bool>, use: seq<bool>, blockLength: int, minSplitSize: int, start: nat, found: bool, index: nat)
    requires |busy| == |use| && minSplitSize <= blockLength
    requires RandomAnswer(busy, use, blockLength, minSplitSize, start, found, index)
    ensures found || forall i: nat :: !Available(busy, use, i)
  {
    hide InorderAnswer, InorderFinds, Available;
    if !found {
      InorderIsComplete(busy, use, blockLength, minSplitSize, 0, |busy|, found, index);
      AvailableInRange(busy, use);
    }
  }

  lemma AvailableInRange(busy: seq<bool>, use: seq<bool>)
    requires |busy| == |use|
    ensures forall i: nat | Available(busy, use, i) :: Searched(0, |busy|, i)
  {
  }

  /** The blocks a selector can hand out. */
  ghost function FreeBlocks(selector: Selector, busy: seq<bool>): set<nat> {
    set i: nat | i < |busy| && selector.Reaches(i) && !busy[i]
  }

  lemma GrantOne(selector: Selector, before: seq<bool>, was: seq<bool>, taken: set<nat>, index: nat)
    requires |before| == |was| && index < |was| && !before[index] && selector.Reaches(index)
    requires forall i | 0 <= i < |was| :: before[i] == (was[i] || i in taken)
    ensures index !in taken && index in FreeBlocks(selector, was)
    ensures taken <= FreeBlocks(selector, was) ==> taken + {index} <= FreeBlocks(selector, was)
    ensures |FreeBlocks(selector, was) - (taken + {index})| < |FreeBlocks(selector, was) - taken|
  {
    assert FreeBlocks(selector, was) - (taken + {index}) == FreeBlocks(selector, was) - taken - {index};
  }

  lemma NothingLeft(selector: Selector, before: seq<bool>, was: seq<bool>, taken: set<nat>)
    requires |before| == |was| && !exists i: nat :: i < |before| && selector.Reaches(i) && !before[i]
    requires forall i | 0 <= i < |was| :: before[i] == (was[i] || i in taken)
    ensures FreeBlocks(selector, was) <= taken
  {
  }

  // ----- byte ranges of a manager

  function ClippedEnd(totalLength: int, offset: nat, length: int): (end: int)
    ensures end <= totalLength && end <= offset + length && (end == totalLength || end == offset + length)
  {
    if totalLength < offset + length then totalLength else offset + length
  }

  /** Division as the source's integers divide: towards zero. */
  function Truncated(e: int, d: int): int
    requires 0 < d
  {
    if 0 <= e then e / d else -(-e / d)
  }

  /** The unsigned end - 1 of the loop does not wrap around. */
  predicate StaysInside(blockLength: int, offset: nat, length: int)
    requires 0 < blockLength
  {
    var end := Truncated(offset + length - 1, blockLength);
    end == offset / blockLength || 1 <= end
  }

  /** With a negative length: the rest of one block and the beginning of another, or the length itself. */
  function BackwardLength(bits: seq<bool>, blockLength: int, offset: nat, length: int): int
    requires 0 < blockLength && length < 0 && offset / blockLength < |bits|
  {
    var start, end := offset / blockLength, Truncated(offset + length - 1, blockLength);
    if start == end then if bits[start] then length else 0
    else if end < 0 then 0
    else
      MarkedBytes(bits, blockLength, offset, (start + 1) * blockLength) +
      MarkedBytes(bits, blockLength, end * blockLength, offset + length)
  }

  lemma BackwardBlocks(blockLength: int, offset: nat, length: int)
    requires 0 < blockLength && length < 0 && StaysInside(blockLength, offset, length)
    ensures var start, end := offset / blockLength, Truncated(offset + length - 1, blockLength);
            start != end ==>
              && 1 <= end < start && offset < (start + 1) * blockLength
              && end * blockLength < offset + length <= (end + 1) * blockLength
              && start * blockLength <= offset
  {
    InBlock(blockLength, offset);
    var start, end := offset / blockLength, Truncated(offset + length - 1, blockLength);
    if start != end {
      NegativeIsSmall(offset + length - 1, blockLength);
      InBlock(blockLength, offset + length - 1);
      BlocksOrdered(blockLength, end, start, offset + length - 1, offset);
    }
  }

  lemma NegativeIsSmall(e: int, d: int)
    requires 0 < d && 1 <= Truncated(e, d)
    ensures 0 <= e && Truncated(e, d) == e / d
  {
  }

  /** Block i lies between those of the first and the last byte of a range exactly when it shares a byte with the range. */
  lemma TouchedBlock(blockLength: int, offset: nat, length: int, i: nat)
    requires 0 < blockLength && 0 < length
    ensures BlockAt(blockLength, offset) <= i <= BlockAt(blockLength, offset + length - 1) <==>
            offset < (i + 1) * blockLength && i * blockLength < offset + length
  {
    var start, end := offset / blockLength, (offset + length - 1) / blockLength;
    InBlock(blockLength, offset);
    InBlock(blockLength, offset + length - 1);
    if start <= i <= end {
      Monotone(blockLength, start + 1, i + 1);
      Monotone(blockLength, i, end);
    } else if i < start {
      Monotone(blockLength, i + 1, start);
    } else {
      Monotone(blockLength, end + 1, i);
    }
  }

  lemma TouchedBits(bits: seq<bool>, blockLength: int, offset: nat, length: int, on: bool)
    requires 0 < blockLength && 0 < length
    ensures forall i | 0 <= i < |bits| ::
              TouchedSet(bits, blockLength, offset, length, on)[i] ==
              if offset < (i + 1) * blockLength && i * blockLength < offset + length then on else bits[i]
  {
    hide BlockAt;
    forall i | 0 <= i < |bits|
      ensures TouchedSet(bits, blockLength, offset, length, on)[i] ==
              if offset < (i + 1) * blockLength && i * blockLength < offset + length then on else bits[i]
    {
      TouchedBlock(blockLength, offset, length, i);
    }
  }

  lemma UntouchedBits(bits: seq<bool>, blockLength: int, offset: nat, length: int)
    requires 0 < blockLength && 0 < length
    ensures forall i | 0 <= i < |bits| ::
              UntouchedSet(bits, blockLength, offset, length)[i] ==
              (bits[i] || !(offset < (i + 1) * blockLength && i * blockLength < offset + length))
  {
    hide BlockAt;
    forall i | 0 <= i < |bits|
      ensures UntouchedSet(bits, blockLength, offset, length)[i] ==
              (bits[i] || !(offset < (i + 1) * blockLength && i * blockLength < offset + length))
    {
      TouchedBlock(blockLength, offset, length, i);
    }
  }

  /** The first and the last block of a range, and where they begin and end. */
  lemma RangeBlocks(blockLength: int, totalLength: int, lo: nat, hi: nat)
    requires 0 < blockLength && lo < hi <= totalLength
    ensures var start, end := lo / blockLength, (hi - 1) / blockLength;
            && 0 <= start <= end < BlockCount(blockLength, totalLength)
            && start * blockLength <= lo < (start + 1) * blockLength
            && end * blockLength < hi <= (end + 1) * blockLength
            && (start < end ==> (start + 1) * blockLength <= end * blockLength)
  {
    BlockCountBounds(blockLength, totalLength);
    hide BlockCount;
    InBlock(blockLength, lo);
    InBlock(blockLength, hi - 1);
    var start, end, n := lo / blockLength, (hi - 1) / blockLength, BlockCount(blockLength, totalLength);
    BlocksOrdered(blockLength, start, end, lo, hi - 1);
    BlocksOrdered(blockLength, end, n - 1, hi - 1, totalLength - 1);
    if start < end {
      Monotone(blockLength, start + 1, end);
    }
  }

  /** The blocks of two bytes are in the order of the bytes. */
  lemma BlocksOrdered(blockLength: int, i: int, j: int, p: int, q: int)
    requires 0 < blockLength && p <= q && i * blockLength <= p && q < (j + 1) * blockLength
    ensures i <= j
  {
    if j < i {
      Monotone(blockLength, j + 1, i);
    }
  }

  lemma InBlock(blockLength: int, p: nat)
    requires 0 < blockLength
    ensures var i := p / blockLength; 0 <= i && i * blockLength <= p < (i + 1) * blockLength
  {
    var i := p / blockLength;
    assert p == i * blockLength + p % blockLength;
    assert (i + 1) * blockLength == i * blockLength + blockLength;
  }

  /** A block between the first and the last of a range has a byte in the range. */
  lemma ByteInBlock(blockLength: int, lo: nat, hi: nat, i: nat)
    requires 0 < blockLength && lo < hi && lo / blockLength <= i <= (hi - 1) / blockLength
    ensures var p := if i == lo / blockLength then lo else i * blockLength;
            lo <= p < hi && p / blockLength == i
  {
    InBlock(blockLength, lo);
    InBlock(blockLength, hi - 1);
    if lo / blockLength < i {
      Monotone(blockLength, lo / blockLength + 1, i);
      Monotone(blockLength, i, (hi - 1) / blockLength);
      assert (i + 1) * blockLength == i * blockLength + blockLength;
      BlockOf(blockLength, i, i * blockLength);
    }
  }

  lemma BlocksBetween(blockLength: int, lo: nat, hi: nat, p: nat)
    requires 0 < blockLength && lo <= p < hi
    ensures lo / blockLength <= p / blockLength <= (hi - 1) / blockLength
  {
    InBlock(blockLength, lo);
    InBlock(blockLength, p);
    InBlock(blockLength, hi - 1);
    BlocksOrdered(blockLength, lo / blockLength, p / blockLength, lo, p);
    BlocksOrdered(blockLength, p / blockLength, (hi - 1) / blockLength, p, hi - 1);
  }
}
