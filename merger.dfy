/** BitMerger: the accumulator that appends bit fragments of arbitrary length to
    one MSB-first bit string (amr.py:63-97). */
module Merger {
  import opened Bits
  import opened Errors

  /** How many bits of a bitlen-bit fragment put keeps when the merged string
      ends offset bits into a byte: as written, a positive multiple of 8 after a
      partial byte loses its last eight bits (amr.py:86-88). */
  function Kept(offset: nat, bitlen: int): (r: int)
    ensures r == bitlen <==> !(offset > 0 && bitlen > 0 && bitlen % 8 == 0)
    ensures r != bitlen ==> r == bitlen - 8
  {
    if offset > 0 && bitlen > 0 && bitlen % 8 == 0 then bitlen - 8 else bitlen
  }

  /** Whether bitlen is a width put accepts for data: its last byte must carry
      at least one bit (amr.py:75-77). */
  predicate FitsFragment(data: seq<bv8>, bitlen: int)
  {
    8 * |data| - 7 <= bitlen <= 8 * |data|
  }

  /** put accepts bitlen for data exactly when data is the (bitlen + 7) // 8
      bytes that bitlen bits need. */
  lemma FitsFragmentBytes(data: seq<bv8>, bitlen: int)
    ensures FitsFragment(data, bitlen) <==> (bitlen + 7) / 8 == |data|
  {
  }

  /** The merged bit string after put(data, bitlen), as written (amr.py:73-91). */
  function PutBits(bits: seq<bool>, data: seq<bv8>, bitlen: int): (r: Result<seq<bool>>)
    ensures r.Ok? <==> FitsFragment(data, bitlen) && |bits| + bitlen >= 0
    ensures r.Err? ==> r.error == IndexError
    ensures r.Ok? ==> r.value <= bits + StreamBits(data)
  {
    var len := |bits| + Kept(|bits| % 8, bitlen);
    if !FitsFragment(data, bitlen) || len < 0 then Err(IndexError)
    else Ok((bits + StreamBits(data))[..len])
  }

  /** The merged bit string after put(data, bitlen) with the defect removed. */
  function PutBitsCorrected(bits: seq<bool>, data: seq<bv8>, bitlen: int): (r: Result<seq<bool>>)
    ensures r.Ok? <==> FitsFragment(data, bitlen) && |bits| + bitlen >= 0
    ensures r.Err? ==> r.error == IndexError
    ensures r.Ok? ==> r.value <= bits + StreamBits(data)
  {
    var len := |bits| + bitlen;
    if !FitsFragment(data, bitlen) || len < 0 then Err(IndexError)
    else Ok((bits + StreamBits(data))[..len])
  }

  /** A fragment of non-negative width is appended in full unless it is a whole
      number of bytes put after a partial byte. */
  lemma PutAppends(bits: seq<bool>, data: seq<bv8>, bitlen: nat)
    requires FitsFragment(data, bitlen)
    requires |bits| % 8 == 0 || bitlen % 8 != 0
    ensures PutBits(bits, data, bitlen) == Ok(bits + StreamBits(data)[..bitlen])
  {
    AppendPrefix(bits, StreamBits(data), bitlen, |bits| + bitlen);
  }

  /** The defect: a whole-byte fragment put after a partial byte loses its last byte. */
  lemma PutLosesLastByte(bits: seq<bool>, data: seq<bv8>, bitlen: nat)
    requires FitsFragment(data, bitlen) && |bits| % 8 != 0 && bitlen > 0 && bitlen % 8 == 0
    ensures PutBits(bits, data, bitlen) == Ok(bits + StreamBits(data)[..bitlen - 8])
  {
    AppendPrefix(bits, StreamBits(data), bitlen - 8, |bits| + bitlen - 8);
  }

  /** A negative width, which only an empty fragment can have, erases that many
      bits, and fails when there are not that many. */
  lemma PutErases(bits: seq<bool>, bitlen: int)
    requires -7 <= bitlen < 0
    ensures PutBits(bits, [], bitlen) ==
            if |bits| + bitlen < 0 then Err(IndexError) else Ok(bits[..|bits| + bitlen])
  {
    assert bits + StreamBits([]) == bits;
  }

  /** The corrected put appends every fragment of non-negative width in full. */
  lemma PutCorrectedAppends(bits: seq<bool>, data: seq<bv8>, bitlen: nat)
    requires FitsFragment(data, bitlen)
    ensures PutBitsCorrected(bits, data, bitlen) == Ok(bits + StreamBits(data)[..bitlen])
  {
    AppendPrefix(bits, StreamBits(data), bitlen, |bits| + bitlen);
  }

  lemma ZeroByteBits()
    ensures ByteBits(0) == Zeros(8)
  {
    ByteBitsFrom(0, Zeros(8));
  }

  /** The bits of the first j + 1 bytes are those of the first j and then byte j. */
  lemma PrefixStep(data: seq<bv8>, j: nat)
    requires j < |data|
    ensures StreamBits(data[..j + 1]) == StreamBits(data[..j]) + ByteBits(data[j])
  {
    assert data[..j + 1] == data[..j] + [data[j]];
    StreamBitsCons2(data[..j], data[j], StreamBits(data[..j]), ByteBits(data[j]));
  }

  lemma PrefixStepAcc(data: seq<bv8>, j: nat, acc: seq<bool>, pre: seq<bool>)
    requires j < |data| && pre == acc + StreamBits(data[..j])
    ensures pre + ByteBits(data[j]) == acc + StreamBits(data[..j + 1])
  {
    PrefixStep(data, j);
  }

  /** Merging byte x when the merged string ends on a byte boundary (amr.py:81-82). */
  lemma MergeAligned(c: seq<bv8>, l: bv8, x: bv8, acc: seq<bool>)
    requires StreamBits(c) + ByteBits(l)[..0] == acc
    ensures StreamBits(c + [x]) + ByteBits(l)[..0] == acc + ByteBits(x)
  {
    StreamBitsCons2(c, x, StreamBits(c), ByteBits(x));
  }

  lemma MergeShiftedByte(c: seq<bv8>, l: bv8, x: bv8, o: nat, k: nat, v: bv8)
    requires 0 < o < 8 && k == 8 - o && v == l | Shr(x, o)
    requires ByteBits(l) == ByteBits(l)[..o] + Zeros(k)
    ensures StreamBits(c + [v]) == StreamBits(c) + (ByteBits(l)[..o] + ByteBits(x)[..k])
  {
    JoinBits(l, x, o, k, v);
    StreamBitsCons2(c, v, StreamBits(c), ByteBits(l)[..o] + ByteBits(x)[..k]);
  }

  lemma MergeShiftedRest(x: bv8, o: nat, k: nat, nl: bv8)
    requires 0 < o < 8 && k == 8 - o && nl == Shl(x, k)
    ensures ByteBits(nl)[..o] == ByteBits(x)[k..]
    ensures ByteBits(nl) == ByteBits(nl)[..o] + Zeros(k)
  {
    ShlBits(x, k, nl);
    TakeOfConcat(ByteBits(x)[k..], Zeros(k), o);
  }

  /** Merging byte x when o bits of a partial byte l are pending (amr.py:83-85):
      the completed byte and the new partial byte together add the bits of x. */
  lemma MergeShifted(c: seq<bv8>, l: bv8, x: bv8, o: nat, k: nat, v: bv8, nl: bv8, acc: seq<bool>)
    requires 0 < o < 8 && k == 8 - o && v == l | Shr(x, o) && nl == Shl(x, k)
    requires ByteBits(l) == ByteBits(l)[..o] + Zeros(k)
    requires StreamBits(c) + ByteBits(l)[..o] == acc
    ensures StreamBits(c + [v]) + ByteBits(nl)[..o] == acc + ByteBits(x)
    ensures ByteBits(nl) == ByteBits(nl)[..o] + Zeros(k)
  {
    MergeShiftedByte(c, l, x, o, k, v);
    MergeShiftedRest(x, o, k, nl);
    Regroup(StreamBits(c), ByteBits(l)[..o], ByteBits(x), k);
  }

  /** After a pop, the merged string is cut back to the first b bits of the
      popped byte z (amr.py:87-88). */
  lemma PoppedPrefix(p: seq<bv8>, z: bv8, l: bv8, o: nat, b: nat, t: seq<bool>, len: nat)
    requires o < 8 && t == StreamBits(p + [z]) + ByteBits(l)[..o]
    requires 0 < b < 8 && len == 8 * |p| + b
    ensures StreamBits(p) + ByteBits(z)[..b] == t[..len]
  {
    StreamBitsCons2(p, z, StreamBits(p), ByteBits(z));
    PrefixThrough(StreamBits(p), ByteBits(z), ByteBits(l)[..o], b, len);
  }

  /** Without a pop, the merged string is cut back to the first o2 <= o pending bits. */
  lemma KeptPrefix(c: seq<bv8>, l: bv8, o: nat, o2: nat, t: seq<bool>, len: nat)
    requires o2 <= o < 8 && t == StreamBits(c) + ByteBits(l)[..o]
    requires len == 8 * |c| + o2
    ensures StreamBits(c) + ByteBits(l)[..o2] == t[..len]
  {
    PrefixWithin(StreamBits(c), ByteBits(l), o, o2, len);
  }

  /** Masking the partial byte keeps its first o2 bits and clears the rest (amr.py:89-91). */
  lemma MaskPartial(u: bv8, o2: nat, nb: nat, mask: bv8, v: bv8)
    requires o2 < 8 && nb == 8 - o2 && mask == Shl(0xFF, nb) && v == u & mask
    ensures ByteBits(v)[..o2] == ByteBits(u)[..o2]
    ensures ByteBits(v) == ByteBits(v)[..o2] + Zeros(nb)
  {
    MaskedBits(u, o2, nb, mask, v);
    TakeOfConcat(ByteBits(u)[..o2], Zeros(nb), o2);
  }

  /** The length of the merged string after the tail of put, when the bytes
      merged so far fill c whole bytes and offset more bits. */
  function SettledLength(c: nat, offset: nat, bitlen: int, corrected: bool): int
  {
    var b := offset + bitlen % 8;
    if 0 < b < 8 && (corrected ==> bitlen % 8 != 0) then 8 * (c - 1) + b
    else 8 * c + b % 8
  }

  /** The merged length after put, as written, in terms of the state before it. */
  lemma PutLength(bl0: nat, c0: nat, o: nat, nd: nat, bitlen: int, len: int)
    requires o < 8 && bl0 == 8 * c0 + o && 8 * nd - 7 <= bitlen <= 8 * nd && bitlen != 0
    requires len == SettledLength(c0 + nd, o, bitlen, false)
    ensures len == bl0 + Kept(bl0 % 8, bitlen)
  {
  }

  /** The merged length after the corrected put. */
  lemma PutLengthCorrected(bl0: nat, c0: nat, o: nat, nd: nat, bitlen: int, len: int)
    requires o < 8 && bl0 == 8 * c0 + o && 8 * nd - 7 <= bitlen <= 8 * nd && bitlen != 0
    requires len == SettledLength(c0 + nd, o, bitlen, true)
    ensures len == bl0 + bitlen
  {
  }

  lemma PutResult(bits: seq<bool>, data: seq<bv8>, bitlen: int, t: seq<bool>, len: int)
    requires FitsFragment(data, bitlen) && t == bits + StreamBits(data)
    requires len == |bits| + Kept(|bits| % 8, bitlen) && 0 <= len <= |t|
    ensures PutBits(bits, data, bitlen) == Ok(t[..len])
  {
  }

  lemma PutCorrectedResult(bits: seq<bool>, data: seq<bv8>, bitlen: int, t: seq<bool>, len: int)
    requires FitsFragment(data, bitlen) && t == bits + StreamBits(data)
    requires len == |bits| + bitlen && 0 <= len <= |t|
    ensures PutBitsCorrected(bits, data, bitlen) == Ok(t[..len])
  {
  }

  /** An empty fragment of width 0 changes nothing. */
  lemma PutNothing(bits: seq<bool>)
    ensures PutBits(bits, [], 0) == Ok(bits) && PutBitsCorrected(bits, [], 0) == Ok(bits)
  {
    assert (bits + StreamBits([]))[..|bits|] == bits;
  }

  /** The bytes result() returns are the packing of the merged bits: the partial
      byte, padded by its clear low bits, is added exactly when offset > 0. */
  lemma PackedState(c: seq<bv8>, l: bv8, o: nat, bits: seq<bool>)
    requires o < 8 && ByteBits(l) == ByteBits(l)[..o] + Zeros(8 - o)
    requires bits == StreamBits(c) + ByteBits(l)[..o]
    ensures (if o > 0 then c + [l] else c) == Pack(bits)
  {
    if o > 0 {
      StreamBitsCons2(c, l, StreamBits(c), ByteBits(l));
      assert Pad(|bits|) == 8 - o;
      PackUnique(c + [l], bits);
    } else {
      assert bits == StreamBits(c);
      PackUnpack(c);
    }
  }

  /** Merges fragments into one MSB-first bit string: whole bytes in complete,
      then the first offset bits of lastVal (amr.py:63-97). */
  class BitMerger {
    var offset: nat
    var complete: seq<bv8>
    var lastVal: bv8

    /** offset stays below 8 and the bits of lastVal past offset are clear. */
    ghost predicate Valid()
      reads this`offset, this`lastVal
    {
      offset < 8 && ByteBits(lastVal) == ByteBits(lastVal)[..offset] + Zeros(8 - offset)
    }

    /** The merged bit string. */
    ghost function Bits(): seq<bool>
      reads this
      requires offset < 8
    {
      StreamBits(complete) + ByteBits(lastVal)[..offset]
    }

    constructor ()
      ensures Valid() && Bits() == []
    {
      offset := 0;
      complete := [];
      lastVal := 0;
      ZeroByteBits();
    }

    /** bitlen() (amr.py:70-71): the number of merged bits. */
    function BitLen(): (r: nat)
      reads this
      requires Valid()
      ensures r == |Bits()|
    {
      8 * |complete| + offset
    }

    /** result() (amr.py:93-97): the merged bits packed MSB-first into bytes, the
        last one zero-padded, together with their number. */
    function Output(): (r: (seq<bv8>, nat))
      reads this
      requires Valid()
      ensures r.0 == Pack(Bits()) && r.1 == |Bits()|
    {
      PackedState(complete, lastVal, offset, Bits());
      (if offset > 0 then complete + [lastVal] else complete, BitLen())
    }

    /** One pass of the per-byte loop of put (amr.py:81-85): appends the bits of x. */
    method MergeByte(x: bv8)
      requires Valid()
      modifies this`complete, this`lastVal
      ensures Valid()
      ensures |complete| == old(|complete|) + 1
      ensures StreamBits(complete) + ByteBits(lastVal)[..offset] == old(Bits()) + ByteBits(x)
    {
      ghost var pre := Bits();
      if offset == 0 {
        MergeAligned(complete, lastVal, x, pre);
        complete := complete + [x];
      } else {
        var v := lastVal | Shr(x, offset);
        var nl := Shl(x, 8 - offset);
        MergeShifted(complete, lastVal, x, offset, 8 - offset, v, nl, pre);
        complete := complete + [v];
        lastVal := nl;
      }
    }

    /** The per-byte loop of put (amr.py:80-85): appends the bits of data in full. */
    method MergeBytes(data: seq<bv8>)
      requires Valid()
      modifies this`complete, this`lastVal
      ensures Valid()
      ensures StreamBits(complete) + ByteBits(lastVal)[..offset] == old(Bits()) + StreamBits(data)
      ensures |complete| == old(|complete|) + |data|
      ensures data == [] ==> complete == old(complete) && lastVal == old(lastVal)
    {
      ghost var acc := Bits();
      var j := 0;
      while j < |data|
        invariant 0 <= j <= |data| && Valid() && |complete| == old(|complete|) + j
        invariant StreamBits(complete) + ByteBits(lastVal)[..offset] == acc + StreamBits(data[..j])
        invariant j == 0 ==> complete == old(complete) && lastVal == old(lastVal)
      {
        ghost var pre := Bits();
        MergeByte(data[j]);
        PrefixStepAcc(data, j, acc, pre);
        j := j + 1;
      }
      assert data[..j] == data;
    }

    /** complete.pop() into lastVal (amr.py:87-88). */
    method PopLast()
      requires |complete| > 0
      modifies this`complete, this`lastVal
      ensures complete == old(complete)[..old(|complete|) - 1]
      ensures lastVal == old(complete)[old(|complete|) - 1]
    {
      lastVal := complete[|complete| - 1];
      complete := complete[..|complete| - 1];
    }

    /** offset := o2 and lastVal masked to its first o2 bits (amr.py:89-91). */
    method MaskTo(o2: nat)
      requires o2 < 8
      modifies this`offset, this`lastVal
      ensures Valid() && offset == o2
      ensures ByteBits(lastVal)[..o2] == ByteBits(old(lastVal))[..o2]
    {
      offset := o2;
      var mask := Shl(0xFF, 8 - offset);
      ghost var u := lastVal;
      lastVal := lastVal & mask;
      MaskPartial(u, offset, 8 - offset, mask, lastVal);
    }

    /** The tail of put (amr.py:86-91), as written: with b = offset + bitlen % 8,
        a last byte holding only 0 < b < 8 bits is popped back into lastVal (an
        empty complete makes the pop fail with IndexError), then offset becomes
        b % 8 and lastVal is masked to its first offset bits. */
    method Settle(bitlen: int) returns (r: Outcome)
      requires Valid()
      modifies this
      ensures r.Fail? <==> 0 < old(offset) + bitlen % 8 < 8 && old(|complete|) == 0
      ensures r.Fail? ==> r.error == IndexError
      ensures r.Fail? ==> complete == old(complete) && offset == old(offset) && lastVal == old(lastVal)
      ensures r.Pass? ==> Valid() && Bits() == old(Bits())[..SettledLength(old(|complete|), old(offset), bitlen, false)]
    {
      ghost var t := Bits();
      ghost var len := SettledLength(|complete|, offset, bitlen, false);
      var b := offset + bitlen % 8;
      if 0 < b < 8 {
        if |complete| == 0 {
          return Fail(IndexError);
        }
        ghost var p, z := complete[..|complete| - 1], complete[|complete| - 1];
        assert complete == p + [z];
        PoppedPrefix(p, z, lastVal, offset, b, t, len);
        PopLast();
      } else {
        KeptPrefix(complete, lastVal, offset, b % 8, t, len);
      }
      MaskTo(b % 8);
      assert Bits() == t[..len];
      return Pass;
    }

    /** The tail of put with the defect removed: the last byte is popped back only
        when the fragment does not end on a byte boundary. */
    method SettleCorrected(bitlen: int) returns (r: Outcome)
      requires Valid()
      modifies this
      ensures r.Fail? <==> 0 < old(offset) + bitlen % 8 < 8 && bitlen % 8 != 0 && old(|complete|) == 0
      ensures r.Fail? ==> r.error == IndexError
      ensures r.Fail? ==> complete == old(complete) && offset == old(offset) && lastVal == old(lastVal)
      ensures r.Pass? ==> Valid() && Bits() == old(Bits())[..SettledLength(old(|complete|), old(offset), bitlen, true)]
    {
      ghost var t := Bits();
      ghost var len := SettledLength(|complete|, offset, bitlen, true);
      var b := offset + bitlen % 8;
      if 0 < b < 8 && bitlen % 8 != 0 {
        if |complete| == 0 {
          return Fail(IndexError);
        }
        ghost var p, z := complete[..|complete| - 1], complete[|complete| - 1];
        assert complete == p + [z];
        PoppedPrefix(p, z, lastVal, offset, b, t, len);
        PopLast();
      } else {
        KeptPrefix(complete, lastVal, offset, b % 8, t, len);
      }
      MaskTo(b % 8);
      assert Bits() == t[..len];
      return Pass;
    }

    /** Appends the first bitlen bits of data (amr.py:73-91), as written: after a
        partial byte, a fragment that is a positive multiple of 8 bits long loses
        its last byte. A width data cannot hold, or a negative width (possible
        only for empty data) that erases more bits than there are, fails with
        IndexError and changes nothing. */
    method Put(data: seq<bv8>, bitlen: int) returns (r: Outcome)
      requires Valid()
      modifies this
      ensures Valid()
      ensures r.Pass? <==> PutBits(old(Bits()), data, bitlen).Ok?
      ensures r.Pass? ==> Bits() == PutBits(old(Bits()), data, bitlen).value
      ensures r.Fail? ==> r.error == IndexError
      ensures r.Fail? ==> complete == old(complete) && offset == old(offset) && lastVal == old(lastVal)
    {
      var datalen := 8 * |data|;
      if bitlen < datalen - 7 || bitlen > datalen {
        return Fail(IndexError);
      }
      if bitlen == 0 {
        PutNothing(Bits());
        return Pass;
      }
      ghost var bits0, c0, o0 := Bits(), |complete|, offset;
      MergeBytes(data);
      ghost var t := Bits();
      r := Settle(bitlen);
      if r.Pass? {
        PutLength(|bits0|, c0, o0, |data|, bitlen, SettledLength(c0 + |data|, o0, bitlen, false));
        PutResult(bits0, data, bitlen, t, SettledLength(c0 + |data|, o0, bitlen, false));
      }
    }

    /** put with the defect removed: every fragment of non-negative width is
        appended in full. */
    method PutCorrected(data: seq<bv8>, bitlen: int) returns (r: Outcome)
      requires Valid()
      modifies this
      ensures Valid()
      ensures r.Pass? <==> PutBitsCorrected(old(Bits()), data, bitlen).Ok?
      ensures r.Pass? ==> Bits() == PutBitsCorrected(old(Bits()), data, bitlen).value
      ensures r.Fail? ==> r.error == IndexError
      ensures r.Fail? ==> complete == old(complete) && offset == old(offset) && lastVal == old(lastVal)
    {
      var datalen := 8 * |data|;
      if bitlen < datalen - 7 || bitlen > datalen {
        return Fail(IndexError);
      }
      if bitlen == 0 {
        PutNothing(Bits());
        return Pass;
      }
      ghost var bits0, c0, o0 := Bits(), |complete|, offset;
      MergeBytes(data);
      ghost var t := Bits();
      r := SettleCorrected(bitlen);
      if r.Pass? {
        PutLengthCorrected(|bits0|, c0, o0, |data|, bitlen, SettledLength(c0 + |data|, o0, bitlen, true));
        PutCorrectedResult(bits0, data, bitlen, t, SettledLength(c0 + |data|, o0, bitlen, true));
      }
    }
  }
}
