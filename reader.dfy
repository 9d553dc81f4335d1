/** BitIterator: an MSB-first cursor that reads n-bit fields, possibly straddling
    byte boundaries, out of a byte string (amr.py:14-47). */
module Reader {
  import opened Bits
  import opened Errors

  /** The n-bit field of s that starts at bit offset off, left-justified into
      whole bytes whose padding bits are zero, or IndexError when n is negative
      or the field runs past the end of s. */
  function ReadBits(s: seq<bv8>, off: nat, n: int): (r: Result<seq<bv8>>)
    ensures r.Ok? <==> 0 <= n && off + n <= 8 * |s|
    ensures r.Err? ==> r.error == IndexError
    ensures r.Ok? ==> |r.value| == (n + 7) / 8
  {
    if n < 0 || off + n > 8 * |s| then Err(IndexError)
    else Ok(Pack(StreamBits(s)[off..off + n]))
  }

  /** A read that fits returns exactly the bits of the field, followed by the
      zero bits that pad it to whole bytes. */
  lemma ReadBitsBits(s: seq<bv8>, off: nat, n: nat, end: nat)
    requires end == off + n && end <= 8 * |s|
    ensures ReadBits(s, off, n).Ok?
    ensures StreamBits(ReadBits(s, off, n).value) == StreamBits(s)[off..end] + Zeros(Pad(n))
  {
    PackBits(StreamBits(s)[off..end]);
  }

  /** The least multiple of 8 that is at least o. */
  function AlignUp(o: nat): (r: nat)
    ensures r % 8 == 0 && o <= r < o + 8
  {
    (o + 7) / 8 * 8
  }

  /** Aligning an aligned offset changes nothing. */
  lemma AlignUpIdempotent(o: nat)
    ensures AlignUp(AlignUp(o)) == AlignUp(o)
  {
  }

  /** Aligning never leaves the data: 8 * |s| is itself a multiple of 8. */
  lemma AlignUpBounded(o: nat, len: nat)
    requires o <= 8 * len
    ensures AlignUp(o) <= 8 * len
  {
  }

  /** Reading a field that starts and ends on byte boundaries returns those bytes. */
  lemma AlignedRead(s: seq<bv8>, i: nat, k: nat)
    requires i + k <= |s|
    ensures ReadBits(s, 8 * i, 8 * k) == Ok(s[i..i + k])
  {
    var j := i + k;
    StreamBitsSlice(s, i, j, 8 * i, 8 * j);
    PackUnpack(s[i..j]);
  }

  /** Reading back part of a packed bit string returns exactly that part, packed:
      the reader undoes the packing done by the merger. */
  lemma ReadPacked(bits: seq<bool>, off: nat, n: nat, end: nat)
    requires end == off + n && end <= |bits|
    ensures ReadBits(Pack(bits), off, n) == Ok(Pack(bits[off..end]))
  {
    var p := Pack(bits);
    PackedSlice(bits, off, n, end);
    ReadField(p, off, n, end, bits[off..end]);
  }

  /** A read that fits returns the packing of the field it covers. */
  lemma ReadField(s: seq<bv8>, off: nat, n: nat, end: nat, field: seq<bool>)
    requires end == off + n && end <= 8 * |s| && field == StreamBits(s)[off..end]
    ensures ReadBits(s, off, n) == Ok(Pack(field))
  {
  }

  /** Below its padding, the packing of bits holds bits themselves. */
  lemma PackedSlice(bits: seq<bool>, off: nat, n: nat, end: nat)
    requires end == off + n && end <= |bits|
    ensures StreamBits(Pack(bits))[off..end] == bits[off..end]
  {
    PackBits(bits);
    PrefixSlice(bits, Zeros(Pad(|bits|)), off, end);
  }

  /** The byte window the read loop walks stays inside input plus stop mark. */
  lemma ReadWindow(off: nat, n: nat, len: nat)
    requires 0 < n && off + n <= 8 * len
    ensures off / 8 + (n + 7) / 8 <= len
  {
  }

  lemma TwoBytes(s: seq<bv8>, i: nat)
    requires i + 1 < |s|
    ensures s[i..i + 2] == [s[i]] + [s[i + 1]]
  {
  }

  /** Bytes i and i + 1 of s, as bits. */
  lemma PairBits(s: seq<bv8>, i: nat, lo: nat, hi: nat)
    requires i + 1 < |s| && lo == 8 * i && hi == lo + 16
    ensures StreamBits(s)[lo..hi] == ByteBits(s[i]) + ByteBits(s[i + 1])
  {
    StreamBitsSlice(s, i, i + 2, lo, hi);
    TwoBytes(s, i);
    StreamBitsPair(s[i], s[i + 1]);
  }

  /** The byte assembled from bytes i and i + 1 of s (amr.py:30-33) holds the
      eight stream bits that start sh bits into byte i. */
  lemma ShiftedWindow(s: seq<bv8>, i: nat, sh: nat, start: nat, stop: nat, v: bv8)
    requires i + 1 < |s| && sh < 8 && start == 8 * i + sh && stop == start + 8
    requires v == Shl(s[i], sh) | Shr(s[i + 1], 8 - sh)
    ensures stop <= 8 * |s|
    ensures ByteBits(v) == StreamBits(s)[start..stop]
  {
    var lo := 8 * i;
    var hi := lo + 16;
    ShiftedPairBits(s[i], s[i + 1], sh, v);
    PairBits(s, i, lo, hi);
    SliceOfSlice(StreamBits(s), lo, hi, sh, sh + 8, start, stop);
  }

  /** One step of the read loop: the byte assembled from bytes i and i + 1 is
      the next eight bits of the field. */
  lemma ReadStep(s: seq<bv8>, off: nat, k: nat, p: seq<bv8>, i: nat, sh: nat, start: nat, stop: nat, val: bv8)
    requires i == off / 8 + k && sh == off % 8 && i + 1 < |s|
    requires start == off + 8 * k && stop == start + 8
    requires StreamBits(p) == StreamBits(s)[off..start]
    requires val == Shl(s[i], sh) | Shr(s[i + 1], 8 - sh)
    ensures stop <= 8 * |s|
    ensures StreamBits(p + [val]) == StreamBits(s)[off..stop]
  {
    ShiftedWindow(s, i, sh, start, stop, val);
    StreamBitsCons2(p, val, StreamBits(s)[off..start], StreamBits(s)[start..stop]);
    SliceJoin(StreamBits(s), off, start, stop);
  }

  /** The stop mark appended after the input does not change the input's bits. */
  lemma StopMarkSlice(s: seq<bv8>, a: nat, b: nat)
    requires a <= b <= 8 * |s|
    ensures StreamBits(s + [0])[a..b] == StreamBits(s)[a..b]
  {
    StreamBitsAppend(s, [0]);
    PrefixSlice(StreamBits(s), StreamBits([0]), a, b);
  }

  /** Splitting a window of t that a byte string covers into its last byte and the rest. */
  lemma LastByteWindow(t: seq<bool>, p: seq<bv8>, last: bv8, a: nat, m: nat, e: nat)
    requires m == a + 8 * |p| && e == m + 8 && e <= |t|
    requires StreamBits(p + [last]) == t[a..e]
    ensures StreamBits(p) == t[a..m] && ByteBits(last) == t[m..e]
  {
    StreamBitsCons2(p, last, StreamBits(p), ByteBits(last));
    SplitConcat(t, a, m, e, StreamBits(p), ByteBits(last));
  }

  /** The masked last byte keeps the first w of its window's bits. */
  lemma MaskedWindow(t: seq<bool>, m: nat, f: nat, e: nat, w: nat, nb: nat, last: bv8, mask: bv8, v: bv8)
    requires w + nb == 8 && f == m + w && e == m + 8 && e <= |t|
    requires ByteBits(last) == t[m..e] && mask == Shl(0xFF, nb) && v == last & mask
    ensures ByteBits(v) == t[m..f] + Zeros(nb)
  {
    MaskedBits(last, w, nb, mask, v);
    PrefixOfSlice(t, m, e, w, f);
  }

  /** The bits of a read whose last byte is masked down to its first w bits. */
  lemma MaskedOut(t: seq<bool>, a: nat, m: nat, f: nat, e: nat, w: nat, nb: nat,
                  p: seq<bv8>, last: bv8, mask: bv8, v: bv8)
    requires w + nb == 8 && m == a + 8 * |p| && f == m + w && e == m + 8 && e <= |t|
    requires StreamBits(p + [last]) == t[a..e]
    requires mask == Shl(0xFF, nb) && v == last & mask
    ensures StreamBits(p + [v]) == t[a..f] + Zeros(nb)
  {
    LastByteWindow(t, p, last, a, m, e);
    MaskedWindow(t, m, f, e, w, nb, last, mask, v);
    StreamBitsCons2(p, v, t[a..m], t[m..f] + Zeros(nb));
    JoinPadded(t, a, m, f, Zeros(nb));
  }

  /** A read whose length is a whole number of bytes needs no masking. */
  lemma ReadFinishWhole(input: seq<bv8>, off: nat, n: nat, e: nat, out: seq<bv8>)
    requires e == off + n && e <= 8 * |input|
    requires StreamBits(out) == StreamBits(input + [0])[off..e]
    ensures ReadBits(input, off, n) == Ok(out)
  {
    StopMarkSlice(input, off, e);
    PackUnpack(out);
  }

  lemma PadPartial(n: nat, q: nat, w: nat, nb: nat)
    requires n == 8 * q + w && 0 < w < 8 && nb == 8 - w
    ensures Pad(n) == nb
  {
  }

  lemma ReadFinishSplit(input: seq<bv8>, off: nat, n: nat, q: nat, w: nat, nb: nat, m: nat, e: nat,
                        p: seq<bv8>, last: bv8, mask: bv8, v: bv8)
    requires n == 8 * q + w && 0 < w < 8 && nb == 8 - w && |p| == q
    requires m == off + 8 * q && e == m + 8 && off + n <= 8 * |input|
    requires StreamBits(p + [last]) == StreamBits(input + [0])[off..e]
    requires mask == Shl(0xFF, nb) && v == last & mask
    ensures ReadBits(input, off, n) == Ok(p + [v])
  {
    var f := off + n;
    MaskedOut(StreamBits(input + [0]), off, m, f, e, w, nb, p, last, mask, v);
    StopMarkSlice(input, off, f);
    PadPartial(n, q, w, nb);
    ReadResult(input, off, n, f, p + [v]);
  }

  /** Any byte string holding exactly the field's bits and its zero padding is
      what ReadBits returns. */
  lemma ReadResult(s: seq<bv8>, off: nat, n: nat, f: nat, r: seq<bv8>)
    requires f == off + n && f <= 8 * |s|
    requires StreamBits(r) == StreamBits(s)[off..f] + Zeros(Pad(n))
    ensures ReadBits(s, off, n) == Ok(r)
  {
    var field := StreamBits(s)[off..f];
    assert |field| == n;
    PackUnique(r, field);
  }

  lemma UpdateLast<T>(s: seq<T>, v: T)
    requires |s| > 0
    ensures s == s[..|s| - 1] + [s[|s| - 1]]
    ensures s[|s| - 1 := v] == s[..|s| - 1] + [v]
  {
  }

  /** A field of n = 8 * q + w bits, w > 0, spans q + 1 bytes. */
  lemma ByteCount(n: nat, q: nat, w: nat)
    requires q == n / 8 && w == n % 8 && 0 < w
    ensures n == 8 * q + w && (n + 7) / 8 == q + 1
  {
  }

  /** A read whose length is not a whole number of bytes, once its last byte is
      masked with 0xFF shifted left by nb = 8 - n % 8. */
  lemma ReadFinishMasked(input: seq<bv8>, off: nat, n: nat, nb: nat, e: nat, out: seq<bv8>, mask: bv8, v: bv8)
    requires nb == 8 - n % 8 && nb < 8
    requires off + n <= 8 * |input| && |out| == (n + 7) / 8 && e == off + 8 * |out|
    requires StreamBits(out) == StreamBits(input + [0])[off..e]
    requires mask == Shl(0xFF, nb) && v == out[|out| - 1] & mask
    ensures ReadBits(input, off, n) == Ok(out[|out| - 1 := v])
  {
    var q := n / 8;
    var w := n % 8;
    ByteCount(n, q, w);
    var p := out[..|out| - 1];
    var last := out[|out| - 1];
    UpdateLast(out, v);
    ReadFinishSplit(input, off, n, q, w, nb, e - 8, e, p, last, mask, v);
  }

  /** Reading zero bits succeeds with no bytes wherever the cursor is. */
  lemma EmptyRead(s: seq<bv8>, off: nat)
    requires off <= 8 * |s|
    ensures ReadBits(s, off, 0) == Ok([])
  {
    assert StreamBits(s)[off..off] == [];
  }

  /** A cursor over a byte string followed by a zero stop mark (amr.py:14-47). */
  class BitIterator {
    /** The bytes being read, without the stop mark. */
    const input: seq<bv8>
    const data: seq<bv8>
    /** The bit position of the next read, counted MSB-first from the start. */
    var offset: nat

    ghost predicate Valid()
      reads this
    {
      data == input + [0] && offset <= 8 * |input|
    }

    constructor (input: seq<bv8>)
      ensures Valid() && this.input == input && offset == 0
    {
      this.input := input;
      data := input + [0];
      offset := 0;
    }

    /** The loop of read (amr.py:28-36): the count whole bytes starting at bit
        start, each assembled from two neighbouring bytes of data. */
    method Gather(start: nat, count: nat) returns (dataout: seq<bv8>)
      requires Valid() && start / 8 + count < |data|
      ensures |dataout| == count
      ensures StreamBits(dataout) == StreamBits(data)[start..start + 8 * count]
    {
      var i := start / 8;
      var sh := start % 8;
      var x := data[i];
      dataout := [];
      var k := 0;
      ghost var pos := start;
      while k < count
        invariant 0 <= k <= count && |dataout| == k && pos == start + 8 * k
        invariant i == start / 8 + k && x == data[i]
        invariant StreamBits(dataout) == StreamBits(data)[start..pos]
      {
        var val := Shl(x, sh);
        i := i + 1;
        x := data[i];
        val := val | Shr(x, 8 - sh);
        ReadStep(data, start, k, dataout, i - 1, sh, pos, pos + 8, val);
        dataout := dataout + [val];
        k := k + 1;
        pos := pos + 8;
      }
    }

    /** Reads the next n bits, left-justified into whole bytes whose padding is
        zero, and advances past them; a negative n or a read past the end fails
        with IndexError and moves nothing. */
    method Read(n: int) returns (r: Result<seq<bv8>>)
      requires Valid()
      modifies this`offset
      ensures Valid()
      ensures r == ReadBits(input, old(offset), n)
      ensures offset == if r.Ok? then old(offset) + n else old(offset)
    {
      if n < 0 || n + offset > 8 * |data| - 8 {
        return Err(IndexError);
      }
      if n == 0 {
        EmptyRead(input, offset);
        return Ok([]);
      }
      var start := offset;
      ReadWindow(start, n, |input|);
      var dataout := Gather(start, (n + 7) / 8);
      ghost var pos := start + 8 * |dataout|;
      offset := start + n;
      var nb := 8 - n % 8;
      if nb < 8 {
        var mask := Shl(0xFF, nb);
        var v := dataout[|dataout| - 1] & mask;
        ReadFinishMasked(input, start, n, nb, pos, dataout, mask, v);
        dataout := dataout[|dataout| - 1 := v];
      } else {
        ReadFinishWhole(input, start, n, pos, dataout);
      }
      return Ok(dataout);
    }

    /** Moves the cursor forward to the next byte boundary. */
    method ByteAlign()
      requires Valid()
      modifies this`offset
      ensures Valid() && offset == AlignUp(old(offset))
    {
      AlignUpBounded(offset, |input|);
      offset := (offset + 7) / 8 * 8;
    }

    /** Whether any bit of the input is left: exactly when a one-bit read succeeds. */
    function NotEnd(): (r: bool)
      reads this
      requires Valid()
      ensures r <==> offset < 8 * |input|
      ensures r <==> ReadBits(input, offset, 1).Ok?
    {
      offset < 8 * |data| - 8
    }
  }
}
