/** Packed bit fields, most significant bit first (libaria2/src/bitfield.h, libaria2/src/array_fun.h). */
module Bitfield {

  type Byte = bv8

  /** 128 >> k. */
  function Mask(k: nat): Byte
    requires k < 8
  {
    if k == 0 then 128 else if k == 1 then 64 else if k == 2 then 32 else if k == 3 then 16
    else if k == 4 then 8 else if k == 5 then 4 else if k == 6 then 2 else 1
  }

  predicate BitOf(b: Byte, k: nat)
    requires k < 8
  {
    b & Mask(k) != 0
  }

  function Length(nbits: nat): nat { (nbits + 7) / 8 }

  /** bitfield::test. */
  predicate Test(bytes: seq<Byte>, index: nat)
    requires index / 8 < |bytes|
  {
    BitOf(bytes[index / 8], index % 8)
  }

  /** Bit 0 of a field is the top bit of its first byte. */
  lemma TestIsShift(bytes: seq<Byte>, index: nat)
    requires index / 8 < |bytes|
    ensures Test(bytes, index) <==> (bytes[index / 8] << (index % 8)) >= 0x80
  {
    ShiftedMask(bytes[index / 8], index % 8);
  }

  lemma ShiftedMask(b: Byte, k: nat)
    requires k < 8
    ensures BitOf(b, k) <==> (b << k) >= 0x80
  {
  }

  /** The bits of a field that count. */
  function Bits(bytes: seq<Byte>, nbits: nat): (bits: seq<bool>)
    requires Length(nbits) <= |bytes|
    ensures |bits| == nbits
    ensures forall i | 0 <= i < nbits :: bits[i] == Test(bytes, i)
  {
    seq(nbits, i requires 0 <= i < nbits => Test(bytes, i))
  }

  // ----- setting and clearing

  lemma SetBitOf(b: Byte, k: nat, j: nat)
    requires k < 8 && j < 8
    ensures BitOf(b | Mask(k), j) == (j == k || BitOf(b, j))
    ensures BitOf(b & !Mask(k), j) == (j != k && BitOf(b, j))
  {
  }

  function Put(b: Byte, k: nat, on: bool): Byte
    requires k < 8
  {
    if on then b | Mask(k) else b & !Mask(k)
  }

  /** Writing one bit of one byte changes that bit of the field and no other. */
  lemma PutBit(bytes: seq<Byte>, index: nat, on: bool, j: nat)
    requires index / 8 < |bytes| && j / 8 < |bytes|
    ensures Test(bytes[index / 8 := Put(bytes[index / 8], index % 8, on)], j) ==
            if j == index then on else Test(bytes, j)
  {
    hide BitOf, Put;
    PutBitOf(bytes[index / 8], index % 8, on, j % 8);
  }

  lemma PutBitOf(b: Byte, k: nat, on: bool, j: nat)
    requires k < 8 && j < 8
    ensures BitOf(Put(b, k, on), j) == if j == k then on else BitOf(b, j)
  {
    SetBitOf(b, k, j);
    hide BitOf, Mask;
  }

  // ----- array expressions

  function Or(a: Byte, b: Byte): Byte { a | b }

  function Masked(a: Byte, b: Byte): Byte { a & b }

  function Not(a: Byte): Byte { !a }

  lemma OrBit(a: Byte, b: Byte, k: nat)
    requires k < 8
    ensures BitOf(Or(a, b), k) == (BitOf(a, k) || BitOf(b, k))
  {
  }

  lemma AndBit(a: Byte, b: Byte, k: nat)
    requires k < 8
    ensures BitOf(Masked(a, b), k) == (BitOf(a, k) && BitOf(b, k))
  {
  }

  lemma NotBit(a: Byte, k: nat)
    requires k < 8
    ensures BitOf(Not(a), k) == !BitOf(a, k)
  {
  }

  /** One byte of array(ignore) | ~array(filter) | array(have) | array(use); no filter when filtering is off. */
  function UnavailableByte(ignore: Byte, filtered: bool, filter: Byte, have: Byte, use: Byte): Byte {
    if filtered then Or(Or(Or(ignore, Not(filter)), have), use) else Or(Or(ignore, have), use)
  }

  lemma UnavailableByteBit(ignore: Byte, filtered: bool, filter: Byte, have: Byte, use: Byte, k: nat)
    requires k < 8
    ensures BitOf(UnavailableByte(ignore, filtered, filter, have, use), k) <==>
            BitOf(ignore, k) || (filtered && !BitOf(filter, k)) || BitOf(have, k) || BitOf(use, k)
  {
    hide BitOf, Or, Not;
    if filtered {
      NotBit(filter, k);
      OrBit(ignore, Not(filter), k);
      OrBit(Or(ignore, Not(filter)), have, k);
      OrBit(Or(Or(ignore, Not(filter)), have), use, k);
    } else {
      OrBit(ignore, have, k);
      OrBit(Or(ignore, have), use, k);
    }
  }

  function Unavailable(ignore: seq<Byte>, filtered: bool, filter: seq<Byte>, have: seq<Byte>, use: seq<Byte>): (r: seq<Byte>)
    requires |have| == |use| <= |ignore| && (filtered ==> |filter| == |have|)
    ensures |r| == |have|
  {
    seq(|have|, i requires 0 <= i < |have| =>
      UnavailableByte(ignore[i], filtered, if filtered then filter[i] else 0, have[i], use[i]))
  }

  /** A block is free exactly when it is not ignored, inside the filter, missing and not in use. */
  lemma UnavailableBit(ignore: seq<Byte>, filtered: bool, filter: seq<Byte>, have: seq<Byte>, use: seq<Byte>, i: nat)
    requires |have| == |use| <= |ignore| && (filtered ==> |filter| == |have|)
    requires i / 8 < |have|
    ensures Test(Unavailable(ignore, filtered, filter, have, use), i) <==>
            Test(ignore, i) || (filtered && !Test(filter, i)) || Test(have, i) || Test(use, i)
  {
    hide BitOf, Mask, UnavailableByte;
    var n := i / 8;
    UnavailableByteBit(ignore[n], filtered, if filtered then filter[n] else 0, have[n], use[n], i % 8);
  }

  /** array(a) & array(b). */
  function Both(a: seq<Byte>, b: seq<Byte>): (r: seq<Byte>)
    requires |a| == |b|
    ensures |r| == |a|
  {
    seq(|a|, i requires 0 <= i < |a| => Masked(a[i], b[i]))
  }

  lemma BothBit(a: seq<Byte>, b: seq<Byte>, i: nat)
    requires |a| == |b| && i / 8 < |a|
    ensures Test(Both(a, b), i) <==> Test(a, i) && Test(b, i)
  {
    hide BitOf, Masked;
    AndBit(a[i / 8], b[i / 8], i % 8);
  }

  // ----- counting

  function Ones(bits: seq<bool>): (n: nat)
    ensures n <= |bits|
  {
    if bits == [] then 0 else Ones(bits[..|bits| - 1]) + if bits[|bits| - 1] then 1 else 0
  }

  /** The number of ones is the number of places that hold one. */
  lemma {:induction false} OnesArePlaces(bits: seq<bool>)
    ensures Ones(bits) == |set i | 0 <= i < |bits| && bits[i]|
    decreases |bits|
  {
    if bits != [] {
      var n := |bits| - 1;
      OnesArePlaces(bits[..n]);
      var places := set i | 0 <= i < n && bits[..n][i];
      assert (set i | 0 <= i < |bits| && bits[i]) == if bits[n] then places + {n} else places;
    }
  }

  function One(bit: bool): nat { if bit then 1 else 0 }

  /** cntbits, the table of the number of bits in a byte. */
  function CountByte(b: Byte): nat {
    One(BitOf(b, 0)) + One(BitOf(b, 1)) + One(BitOf(b, 2)) + One(BitOf(b, 3)) +
    One(BitOf(b, 4)) + One(BitOf(b, 5)) + One(BitOf(b, 6)) + One(BitOf(b, 7))
  }

  function LastByteMask(nbits: nat): Byte {
    if nbits == 0 then 0
    else
      var s := nbits % 8;
      if s == 0 then 0xff else if s == 1 then 0x80 else if s == 2 then 0xc0 else if s == 3 then 0xe0
      else if s == 4 then 0xf0 else if s == 5 then 0xf8 else if s == 6 then 0xfc else 0xfe
  }

  lemma LastByteBit(nbits: nat, k: nat)
    requires 0 < nbits && k < 8
    ensures BitOf(LastByteMask(nbits), k) <==> nbits % 8 == 0 || k < nbits % 8
  {
  }

  lemma OnesSnoc(bytes: seq<Byte>, n: nat)
    requires Length(n + 1) <= |bytes|
    ensures Ones(Bits(bytes, n + 1)) == Ones(Bits(bytes, n)) + One(Test(bytes, n))
  {
    hide Test;
    assert Bits(bytes, n + 1)[..n] == Bits(bytes, n);
  }

  /** The first s bits of the byte behind n bits. */
  function CountHead(b: Byte, s: nat): nat
    requires s <= 8
  {
    if s == 0 then 0 else CountHead(b, s - 1) + One(BitOf(b, s - 1))
  }

  lemma {:induction false} OnesHead(bytes: seq<Byte>, k: nat, s: nat)
    requires s <= 8 && k < |bytes|
    ensures Ones(Bits(bytes, 8 * k + s)) == Ones(Bits(bytes, 8 * k)) + CountHead(bytes[k], s)
    decreases s
  {
    hide BitOf, Bits, Ones;
    if s != 0 {
      OnesHead(bytes, k, s - 1);
      OnesSnoc(bytes, 8 * k + s - 1);
      assert (8 * k + s - 1) / 8 == k && (8 * k + s - 1) % 8 == s - 1;
    }
  }

  lemma CountByteIsHead(b: Byte)
    ensures CountByte(b) == CountHead(b, 8)
  {
    hide BitOf;
    assert CountHead(b, 1) == One(BitOf(b, 0));
    assert CountHead(b, 2) == CountHead(b, 1) + One(BitOf(b, 1));
    assert CountHead(b, 4) == CountHead(b, 2) + One(BitOf(b, 2)) + One(BitOf(b, 3));
    assert CountHead(b, 6) == CountHead(b, 4) + One(BitOf(b, 4)) + One(BitOf(b, 5));
  }

  /** A whole byte more. */
  lemma OnesByte(bytes: seq<Byte>, k: nat)
    requires k < |bytes|
    ensures Ones(Bits(bytes, 8 * k + 8)) == Ones(Bits(bytes, 8 * k)) + CountByte(bytes[k])
  {
    OnesHead(bytes, k, 8);
    CountByteIsHead(bytes[k]);
  }

  lemma {:induction false} MaskedHead(b: Byte, nbits: nat, s: nat)
    requires 0 < nbits && s <= 8
    ensures var head := if nbits % 8 == 0 then 8 else nbits % 8;
            CountHead(Masked(b, LastByteMask(nbits)), s) == CountHead(b, if s <= head then s else head)
    decreases s
  {
    hide BitOf, LastByteMask, Masked;
    if s != 0 {
      MaskedHead(b, nbits, s - 1);
      AndBit(b, LastByteMask(nbits), s - 1);
      LastByteBit(nbits, s - 1);
    }
  }

  /** The last byte, of which only the first bits count. */
  lemma OnesLastByte(bytes: seq<Byte>, nbits: nat)
    requires 0 < nbits && Length(nbits) <= |bytes|
    ensures var k := Length(nbits) - 1;
            Ones(Bits(bytes, nbits)) == Ones(Bits(bytes, 8 * k)) + CountByte(Masked(bytes[k], LastByteMask(nbits)))
  {
    hide Ones, Bits, LastByteMask, CountHead, CountByte, Masked;
    var k, head := Length(nbits) - 1, if nbits % 8 == 0 then 8 else nbits % 8;
    assert nbits == 8 * k + head;
    OnesHead(bytes, k, head);
    CountByteIsHead(Masked(bytes[k], LastByteMask(nbits)));
    MaskedHead(bytes[k], nbits, 8);
  }

  /** countBit32 of the four bytes that memcpy puts into a word. */
  function CountWord(b0: Byte, b1: Byte, b2: Byte, b3: Byte): nat {
    CountByte(b0) + CountByte(b1) + CountByte(b2) + CountByte(b3)
  }

  lemma OnesWord(bytes: seq<Byte>, i: nat)
    requires 4 * i + 3 < |bytes|
    ensures Ones(Bits(bytes, 32 * i + 32)) == Ones(Bits(bytes, 32 * i)) +
            CountWord(bytes[4 * i], bytes[4 * i + 1], bytes[4 * i + 2], bytes[4 * i + 3])
  {
    hide Ones, Bits, CountByte;
    OnesByte(bytes, 4 * i);
    OnesByte(bytes, 4 * i + 1);
    OnesByte(bytes, 4 * i + 2);
    OnesByte(bytes, 4 * i + 3);
  }

  /** The last byte, if the bits do not fill the last word. */
  method CountTail(bytes: seq<Byte>, nbits: nat) returns (last: nat, len: nat)
    requires 0 < nbits && Length(nbits) <= |bytes|
    ensures len <= |bytes| && Ones(Bits(bytes, nbits)) == last + Ones(Bits(bytes, 8 * len))
  {
    hide Ones, Bits, CountByte, LastByteMask, Masked;
    last, len := 0, Length(nbits);
    if nbits % 32 != 0 {
      OnesLastByte(bytes, nbits);
      len := len - 1;
      last := CountByte(Masked(bytes[len], LastByteMask(nbits)));
    } else {
      assert 8 * len == nbits;
    }
  }

  /** The word-at-a-time count is the number of set bits among the first nbits. */
  method CountSetBit(bytes: seq<Byte>, nbits: nat) returns (count: nat)
    requires Length(nbits) <= |bytes|
    ensures count == Ones(Bits(bytes, nbits))
  {
    hide Ones, Bits, CountByte, LastByteMask, Masked;
    if nbits == 0 {
      return 0;
    }
    var last, len := CountTail(bytes, nbits);
    hide Length;
    count := last;
    var to := len / 4;
    for i := 0 to to
      invariant count == last + Ones(Bits(bytes, 32 * i))
    {
      OnesWord(bytes, i);
      count := count + CountWord(bytes[4 * i], bytes[4 * i + 1], bytes[4 * i + 2], bytes[4 * i + 3]);
    }
    for i := len - len % 4 to len
      invariant count == last + Ones(Bits(bytes, 8 * i))
    {
      OnesByte(bytes, i);
      count := count + CountByte(bytes[i]);
    }
  }

  /** The byte-at-a-time count used for array expressions. */
  method CountSetBitSlow(bytes: seq<Byte>, nbits: nat) returns (count: nat)
    requires Length(nbits) <= |bytes|
    ensures count == Ones(Bits(bytes, nbits))
  {
    hide Ones, Bits, CountByte, LastByteMask, Masked;
    if nbits == 0 {
      return 0;
    }
    count := 0;
    var to := Length(nbits);
    if to > 1 {
      for i := 0 to to - 1
        invariant count == Ones(Bits(bytes, 8 * i))
      {
        OnesByte(bytes, i);
        count := count + CountByte(bytes[i]);
      }
    }
    OnesLastByte(bytes, nbits);
    count := count + CountByte(Masked(bytes[to - 1], LastByteMask(nbits)));
  }

  // ----- all bits set

  lemma ByteExtensional(a: Byte, b: Byte)
    requires forall k | 0 <= k < 8 :: BitOf(a, k) == BitOf(b, k)
    ensures a == b
  {
    assert BitOf(a, 0) == BitOf(b, 0) && BitOf(a, 1) == BitOf(b, 1) && BitOf(a, 2) == BitOf(b, 2) &&
           BitOf(a, 3) == BitOf(b, 3) && BitOf(a, 4) == BitOf(b, 4) && BitOf(a, 5) == BitOf(b, 5) &&
           BitOf(a, 6) == BitOf(b, 6) && BitOf(a, 7) == BitOf(b, 7);
  }

  lemma FullByte(b: Byte, k: nat)
    requires k < 8
    ensures b == 0xff ==> BitOf(b, k)
  {
  }

  /** The bits of the last byte behind the last block are clear. */
  ghost predicate SpareBitsClear(bytes: seq<Byte>, nbits: nat)
    requires Length(nbits) <= |bytes|
  {
    forall i: nat | nbits <= i < 8 * Length(nbits) :: !Test(bytes, i)
  }

  /** Writing the bit of a block leaves the spare bits alone. */
  lemma PutKeepsSpareBits(bytes: seq<Byte>, index: nat, on: bool, nbits: nat)
    requires index < nbits && Length(nbits) <= |bytes|
    ensures SpareBitsClear(bytes[index / 8 := Put(bytes[index / 8], index % 8, on)], nbits) <==> SpareBitsClear(bytes, nbits)
  {
    hide Test, Put;
    var bytes' := bytes[index / 8 := Put(bytes[index / 8], index % 8, on)];
    forall j: nat | nbits <= j < 8 * Length(nbits)
      ensures Test(bytes', j) == Test(bytes, j)
    {
      PutBit(bytes, index, on, j);
    }
    assert SpareBitsClear(bytes', nbits) ==> SpareBitsClear(bytes, nbits);
  }

  /** A field whose only block is finished, with spare bits set beside it. */
  lemma SpareBitsMatter()
    ensures AllBitsSet([0xff], 1) && !SpareBitsClear([0xff], 1)
  {
    var b: Byte := 0xff;
    assert BitOf(b, 0) && BitOf(b, 1);
    assert Test([b], 0) && Test([b], 1);
  }

  ghost predicate AllBitsSet(bytes: seq<Byte>, nbits: nat)
    requires Length(nbits) <= |bytes|
  {
    forall i | 0 <= i < nbits :: Test(bytes, i)
  }

  /** A byte is full exactly when its eight bits are set. */
  lemma FullByteBits(bytes: seq<Byte>, k: nat)
    requires k < |bytes|
    ensures bytes[k] == 0xff <==> forall i | 8 * k <= i < 8 * k + 8 :: Test(bytes, i)
  {
    hide BitOf;
    if bytes[k] == 0xff {
      forall i | 8 * k <= i < 8 * k + 8
        ensures Test(bytes, i)
      {
        FullByte(bytes[k], i - 8 * k);
        assert i / 8 == k && i % 8 == i - 8 * k;
      }
    } else if forall i | 8 * k <= i < 8 * k + 8 :: Test(bytes, i) {
      forall j | 0 <= j < 8
        ensures BitOf(bytes[k], j) == BitOf(0xff, j)
      {
        FullByte(0xff, j);
        assert Test(bytes, 8 * k + j) && (8 * k + j) / 8 == k && (8 * k + j) % 8 == j;
      }
      ByteExtensional(bytes[k], 0xff);
    }
  }

  /** The last byte equals its mask exactly when its blocks are set and its spare bits are not. */
  lemma LastByteBits(bytes: seq<Byte>, nbits: nat)
    requires 0 < nbits && Length(nbits) <= |bytes|
    ensures var k := Length(nbits) - 1;
            bytes[k] == LastByteMask(nbits) <==>
            forall i | 8 * k <= i < 8 * k + 8 :: Test(bytes, i) == (i < nbits)
  {
    hide BitOf, LastByteMask;
    var k := Length(nbits) - 1;
    if bytes[k] == LastByteMask(nbits) {
      forall i | 8 * k <= i < 8 * k + 8
        ensures Test(bytes, i) == (i < nbits)
      {
        LastByteBit(nbits, i - 8 * k);
        assert i / 8 == k && i % 8 == i - 8 * k;
      }
    } else if forall i | 8 * k <= i < 8 * k + 8 :: Test(bytes, i) == (i < nbits) {
      forall j | 0 <= j < 8
        ensures BitOf(bytes[k], j) == BitOf(LastByteMask(nbits), j)
      {
        LastByteBit(nbits, j);
        assert Test(bytes, 8 * k + j) == (8 * k + j < nbits) && (8 * k + j) / 8 == k && (8 * k + j) % 8 == j;
      }
      ByteExtensional(bytes[k], LastByteMask(nbits));
    }
  }

  /** testAllBitSet: what it really tests includes the spare bits. */
  method TestAllBitSet(bytes: seq<Byte>, nbits: nat) returns (r: bool)
    requires |bytes| == Length(nbits)
    ensures r <==> AllBitsSet(bytes, nbits) && SpareBitsClear(bytes, nbits)
  {
    hide Test, LastByteMask;
    if |bytes| == 0 {
      return true;
    }
    for i := 0 to |bytes| - 1
      invariant forall j | 0 <= j < 8 * i :: Test(bytes, j)
    {
      FullByteBits(bytes, i);
      if bytes[i] != 0xff {
        return false;
      }
    }
    LastByteBits(bytes, nbits);
    r := bytes[|bytes| - 1] == LastByteMask(nbits);
  }
}
