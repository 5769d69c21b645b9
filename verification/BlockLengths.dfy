/** Bytes and blocks: totals over bit fields with a short last block, and byte ranges. */
module BlockLengths {
  import opened Bitfield

  /** The number of blocks; none when a length is not positive. */
  function BlockCount(blockLength: int, totalLength: int): nat {
    if 0 < blockLength && 0 < totalLength then (totalLength + blockLength - 1) / blockLength else 0
  }

  lemma BlockCountBounds(blockLength: int, totalLength: int)
    requires 0 < blockLength && 0 < totalLength
    ensures var blocks := BlockCount(blockLength, totalLength);
            0 < blocks && blockLength * (blocks - 1) < totalLength <= blockLength * blocks
  {
    var blocks := BlockCount(blockLength, totalLength);
    var r := (totalLength + blockLength - 1) % blockLength;
    assert totalLength + blockLength - 1 == blockLength * blocks + r;
    assert blockLength * (blocks - 1) == blockLength * blocks - blockLength;
  }

  function LastBlockLength(blockLength: int, totalLength: int): int {
    totalLength - blockLength * (BlockCount(blockLength, totalLength) - 1)
  }

  /** getBlockLength(index). */
  function BlockLength(blockLength: int, totalLength: int, index: nat): int {
    var blocks := BlockCount(blockLength, totalLength);
    if index == blocks - 1 then LastBlockLength(blockLength, totalLength)
    else if index < blocks - 1 then blockLength
    else 0
  }

  /** The length of a block is that of its part of the file: the last block is cut off, and behind it there is nothing. */
  lemma BlockLengthIs(blockLength: int, totalLength: int, index: nat)
    requires 0 < blockLength && 0 < totalLength
    ensures var start := index * blockLength;
            BlockLength(blockLength, totalLength, index) ==
              if start + blockLength <= totalLength then blockLength else if start < totalLength then totalLength - start else 0
  {
    hide BlockCount;
    var last := BlockCount(blockLength, totalLength) - 1;
    BlockCountBounds(blockLength, totalLength);
    if index < last {
      InOrder(blockLength, index + 1, last);
    } else if index > last {
      InOrder(blockLength, last + 1, index);
    }
  }

  /** Where blocks begin. */
  lemma InOrder(blockLength: int, i: int, j: int)
    requires 0 < blockLength && i <= j
    ensures i * blockLength <= j * blockLength && blockLength * j == j * blockLength
    ensures (i - 1) * blockLength == i * blockLength - blockLength
    ensures (j + 1) * blockLength == j * blockLength + blockLength
  {
    assert j * blockLength - i * blockLength == (j - i) * blockLength;
  }

  /** The bytes of the marked blocks, block by block. */
  function MarkedLength(blockLength: int, totalLength: int, bits: seq<bool>): int {
    if bits == [] then 0
    else
      MarkedLength(blockLength, totalLength, bits[..|bits| - 1]) +
      if bits[|bits| - 1] then BlockLength(blockLength, totalLength, |bits| - 1) else 0
  }

  /** The closed form the code uses: count the blocks and correct for the last one. */
  function CountedLength(blockLength: int, totalLength: int, count: nat, lastMarked: bool): int {
    if count == 0 then 0
    else if lastMarked then (count - 1) * blockLength + LastBlockLength(blockLength, totalLength)
    else count * blockLength
  }

  lemma {:induction false} WholeBlocks(blockLength: int, totalLength: int, bits: seq<bool>)
    requires |bits| < BlockCount(blockLength, totalLength)
    ensures MarkedLength(blockLength, totalLength, bits) == Ones(bits) * blockLength
    decreases |bits|
  {
    if bits != [] {
      var init := bits[..|bits| - 1];
      WholeBlocks(blockLength, totalLength, init);
      assert (Ones(init) + 1) * blockLength == Ones(init) * blockLength + blockLength;
    }
  }

  /** Counting blocks and correcting for the last one gives the sum of the block lengths. */
  lemma CountedIsMarked(blockLength: int, totalLength: int, bits: seq<bool>)
    requires |bits| == BlockCount(blockLength, totalLength)
    ensures CountedLength(blockLength, totalLength, Ones(bits), bits != [] && bits[|bits| - 1]) ==
            MarkedLength(blockLength, totalLength, bits)
  {
    if bits != [] {
      WholeBlocks(blockLength, totalLength, bits[..|bits| - 1]);
    }
  }

  lemma {:induction false} AllOnes(bits: seq<bool>)
    requires forall i | 0 <= i < |bits| :: bits[i]
    ensures Ones(bits) == |bits|
    decreases |bits|
  {
    if bits != [] {
      AllOnes(bits[..|bits| - 1]);
    }
  }

  /** The blocks make up the whole: all of them together are totalLength bytes. */
  lemma AllBlocksAreTotal(blockLength: int, totalLength: int, bits: seq<bool>)
    requires 0 < blockLength && 0 < totalLength && |bits| == BlockCount(blockLength, totalLength)
    requires forall i | 0 <= i < |bits| :: bits[i]
    ensures MarkedLength(blockLength, totalLength, bits) == totalLength
  {
    hide BlockCount;
    BlockCountBounds(blockLength, totalLength);
    AllOnes(bits);
    CountedIsMarked(blockLength, totalLength, bits);
  }

  // ----- byte ranges

  /** The block that byte p lies in. */
  function BlockAt(blockLength: int, p: nat): nat
    requires 0 < blockLength
  {
    p / blockLength
  }

  /** The block of byte p is marked. */
  predicate HasByte(bits: seq<bool>, blockLength: int, p: nat)
    requires 0 < blockLength
  {
    p / blockLength < |bits| && bits[p / blockLength]
  }

  /** The number of bytes of [lo, hi) whose block is marked. */
  function MarkedBytes(bits: seq<bool>, blockLength: int, lo: nat, hi: int): (n: nat)
    requires 0 < blockLength
    ensures lo <= hi ==> n <= hi - lo
    decreases hi - lo
  {
    if hi <= lo then 0
    else MarkedBytes(bits, blockLength, lo, hi - 1) + One(HasByte(bits, blockLength, hi - 1))
  }

  /** The bytes of [lo, hi) whose block is marked. */
  ghost function BytesIn(bits: seq<bool>, blockLength: int, lo: nat, hi: int): set<nat>
    requires 0 < blockLength
  {
    set p: nat | lo <= p < hi && HasByte(bits, blockLength, p)
  }

  /** MarkedBytes is how many they are. */
  lemma {:induction false} MarkedBytesCounted(bits: seq<bool>, blockLength: int, lo: nat, hi: int)
    requires 0 < blockLength
    ensures MarkedBytes(bits, blockLength, lo, hi) == |BytesIn(bits, blockLength, lo, hi)|
    decreases hi - lo
  {
    hide HasByte, BytesIn;
    OneMoreByte(bits, blockLength, lo, hi);
    if lo < hi {
      MarkedBytesCounted(bits, blockLength, lo, hi - 1);
    }
  }

  lemma OneMoreByte(bits: seq<bool>, blockLength: int, lo: nat, hi: int)
    requires 0 < blockLength
    ensures hi <= lo ==> BytesIn(bits, blockLength, lo, hi) == {}
    ensures lo < hi ==> |BytesIn(bits, blockLength, lo, hi)| ==
                        |BytesIn(bits, blockLength, lo, hi - 1)| + One(HasByte(bits, blockLength, hi - 1))
  {
    hide HasByte;
    if lo < hi {
      var before := BytesIn(bits, blockLength, lo, hi - 1);
      if HasByte(bits, blockLength, hi - 1) {
        assert BytesIn(bits, blockLength, lo, hi) == before + {hi - 1};
      } else {
        assert BytesIn(bits, blockLength, lo, hi) == before;
      }
    }
  }

  /** Adjacent ranges add up. */
  lemma {:induction false} MarkedBytesSplit(bits: seq<bool>, blockLength: int, lo: nat, mid: nat, hi: nat)
    requires 0 < blockLength && lo <= mid <= hi
    ensures MarkedBytes(bits, blockLength, lo, hi) ==
            MarkedBytes(bits, blockLength, lo, mid) + MarkedBytes(bits, blockLength, mid, hi)
    decreases hi - mid
  {
    if mid < hi {
      MarkedBytesSplit(bits, blockLength, lo, mid, hi - 1);
    }
  }

  /** Inside one block all bytes count or none. */
  lemma {:induction false} MarkedInBlock(bits: seq<bool>, blockLength: int, i: nat, lo: nat, hi: nat)
    requires 0 < blockLength && i < |bits|
    requires i * blockLength <= lo <= hi <= (i + 1) * blockLength
    ensures MarkedBytes(bits, blockLength, lo, hi) == if bits[i] then hi - lo else 0
    decreases hi - lo
  {
    if lo < hi {
      MarkedInBlock(bits, blockLength, i, lo, hi - 1);
      BlockOf(blockLength, i, hi - 1);
    }
  }

  lemma BlockOf(blockLength: int, i: nat, p: nat)
    requires 0 < blockLength && i * blockLength <= p < (i + 1) * blockLength
    ensures p / blockLength == i
  {
    var q, r := p / blockLength, p % blockLength;
    assert p == q * blockLength + r;
    if q < i {
      Monotone(blockLength, q + 1, i);
    } else if i < q {
      Monotone(blockLength, i + 1, q);
    }
  }

  lemma Monotone(blockLength: int, m: int, n: int)
    requires 0 < blockLength && m <= n
    ensures m * blockLength <= n * blockLength
  {
  }

  /** Every byte of the range counts exactly when every block it touches is marked. */
  lemma {:induction false} AllBytesMarked(bits: seq<bool>, blockLength: int, lo: nat, hi: nat)
    requires 0 < blockLength && lo <= hi
    ensures MarkedBytes(bits, blockLength, lo, hi) == hi - lo <==>
            forall p | lo <= p < hi :: HasByte(bits, blockLength, p)
    decreases hi - lo
  {
    if lo < hi {
      AllBytesMarked(bits, blockLength, lo, hi - 1);
    }
  }

  /** The lengths of the marked blocks add up to the number of bytes in them. */
  lemma LengthIsBytes(blockLength: int, totalLength: int, bits: seq<bool>)
    requires 0 < blockLength && 0 < totalLength && |bits| == BlockCount(blockLength, totalLength)
    ensures MarkedLength(blockLength, totalLength, bits) == MarkedBytes(bits, blockLength, 0, totalLength)
  {
    BlockCountBounds(blockLength, totalLength);
    LengthOfFirst(blockLength, totalLength, bits, |bits|);
    assert bits[..|bits|] == bits;
  }

  lemma {:induction false} LengthOfFirst(blockLength: int, totalLength: int, bits: seq<bool>, n: nat)
    requires 0 < blockLength && 0 < totalLength && n <= |bits| == BlockCount(blockLength, totalLength)
    ensures 0 <= n * blockLength
    ensures MarkedLength(blockLength, totalLength, bits[..n]) ==
            MarkedBytes(bits, blockLength, 0, if n < |bits| then n * blockLength else totalLength)
    decreases n
  {
    hide BlockCount, MarkedBytes;
    BlockCountBounds(blockLength, totalLength);
    if n == 0 {
      NoBytes(bits, blockLength);
    } else {
      LengthOfFirst(blockLength, totalLength, bits, n - 1);
      var lo := (n - 1) * blockLength;
      var hi := if n < |bits| then n * blockLength else totalLength;
      assert n * blockLength == lo + blockLength;
      assert bits[..n][..n - 1] == bits[..n - 1];
      MarkedInBlock(bits, blockLength, n - 1, lo, hi);
      MarkedBytesSplit(bits, blockLength, 0, lo, hi);
    }
  }

  lemma NoBytes(bits: seq<bool>, blockLength: int)
    requires 0 < blockLength
    ensures MarkedBytes(bits, blockLength, 0, 0) == 0
  {
  }
}
