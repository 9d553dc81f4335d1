/** Bit-level view of byte strings: bit 0 of a byte is its most significant bit,
    and bit j of a byte string is bit j % 8 of byte j / 8 (MSB-first). */
module Bits {

  /** The byte with only bit i set. */
  function BitMask(i: nat): bv8
    requires i < 8
  {
    match i
    case 0 => 0x80
    case 1 => 0x40
    case 2 => 0x20
    case 3 => 0x10
    case 4 => 0x08
    case 5 => 0x04
    case 6 => 0x02
    case _ => 0x01
  }

  /** Bit i of b, counted from the most significant end. */
  predicate Bit(b: bv8, i: nat)
    requires i < 8
  {
    b & BitMask(i) != 0
  }

  /** x shifted left by k bits, truncated to a byte: Python's (x << k) & 0xFF. */
  function Shl(x: bv8, k: nat): bv8
    requires k <= 8
  {
    if k == 0 then x else Shl(x, k - 1) << 1
  }

  /** x shifted right by k bits: Python's x >> k on a byte. */
  function Shr(x: bv8, k: nat): bv8
    requires k <= 8
  {
    if k == 0 then x else Shr(x, k - 1) >> 1
  }

  lemma Shl1Bit(y: bv8, i: nat)
    requires i < 8
    ensures Bit(y << 1, i) == (i + 1 < 8 && Bit(y, i + 1))
  {
  }

  lemma Shr1Bit(y: bv8, i: nat)
    requires i < 8
    ensures Bit(y >> 1, i) == (1 <= i && Bit(y, i - 1))
  {
  }

  lemma {:induction false} ShlBit(x: bv8, k: nat, i: nat)
    requires k <= 8 && i < 8
    ensures Bit(Shl(x, k), i) == (i + k < 8 && Bit(x, i + k))
  {
    if k > 0 {
      Shl1Bit(Shl(x, k - 1), i);
      if i + 1 < 8 {
        ShlBit(x, k - 1, i + 1);
      }
    }
  }

  lemma {:induction false} ShrBit(x: bv8, k: nat, i: nat)
    requires k <= 8 && i < 8
    ensures Bit(Shr(x, k), i) == (k <= i && Bit(x, i - k))
  {
    if k > 0 {
      Shr1Bit(Shr(x, k - 1), i);
      if i > 0 {
        ShrBit(x, k - 1, i - 1);
        assert i - 1 - (k - 1) == i - k;
      }
    }
  }

  lemma OrBit(a: bv8, b: bv8, i: nat)
    requires i < 8
    ensures Bit(a | b, i) == (Bit(a, i) || Bit(b, i))
  {
  }

  lemma AndBit(a: bv8, b: bv8, i: nat)
    requires i < 8
    ensures Bit(a & b, i) == (Bit(a, i) && Bit(b, i))
  {
  }

  /** Bit m of the byte made of the low 8 - sh bits of x followed by the top sh bits of y. */
  lemma ShiftedPairBit(x: bv8, y: bv8, sh: nat, m: nat)
    requires sh < 8 && m < 8
    ensures Bit(Shl(x, sh) | Shr(y, 8 - sh), m) ==
            if sh + m < 8 then Bit(x, sh + m) else Bit(y, sh + m - 8)
  {
    OrBit(Shl(x, sh), Shr(y, 8 - sh), m);
    ShlBit(x, sh, m);
    ShrBit(y, 8 - sh, m);
  }

  /** A byte is determined by its eight bits. */
  lemma BitsDetermineByte(a: bv8, b: bv8)
    requires forall i :: 0 <= i < 8 ==> Bit(a, i) == Bit(b, i)
    ensures a == b
  {
    assert Bit(a, 0) == Bit(b, 0) && Bit(a, 1) == Bit(b, 1);
    assert Bit(a, 2) == Bit(b, 2) && Bit(a, 3) == Bit(b, 3);
    assert Bit(a, 4) == Bit(b, 4) && Bit(a, 5) == Bit(b, 5);
    assert Bit(a, 6) == Bit(b, 6) && Bit(a, 7) == Bit(b, 7);
  }

  /** The mask that keeps the top w bits of a byte. */
  lemma TopMaskBit(nb: nat, mask: bv8, i: nat)
    requires nb <= 8 && i < 8 && mask == Shl(0xFF, nb)
    ensures Bit(mask, i) == (i + nb < 8)
  {
    ShlBit(0xFF, nb, i);
  }

  /** Masking with 0xFF shifted left by nb keeps bits 0..7 - nb and clears the rest. */
  lemma MaskedBit(b: bv8, nb: nat, mask: bv8, v: bv8, i: nat)
    requires nb <= 8 && i < 8 && mask == Shl(0xFF, nb) && v == b & mask
    ensures Bit(v, i) == (i + nb < 8 && Bit(b, i))
  {
    AndBit(b, mask, i);
    TopMaskBit(nb, mask, i);
  }

  /** The eight bits of b, most significant first. */
  function ByteBits(b: bv8): (r: seq<bool>)
    ensures |r| == 8
  {
    seq(8, i requires 0 <= i < 8 => Bit(b, i))
  }

  lemma ByteBitsAt(b: bv8, i: nat)
    requires i < 8
    ensures ByteBits(b)[i] == Bit(b, i)
  {
  }

  /** A byte is determined by its bits. */
  lemma ByteBitsInjective(a: bv8, b: bv8)
    requires ByteBits(a) == ByteBits(b)
    ensures a == b
  {
    forall i | 0 <= i < 8 ensures Bit(a, i) == Bit(b, i) {
      ByteBitsAt(a, i);
      ByteBitsAt(b, i);
    }
    BitsDetermineByte(a, b);
  }

  /** n zero bits. */
  function Zeros(n: nat): (r: seq<bool>)
    ensures |r| == n && forall j :: 0 <= j < n ==> !r[j]
  {
    seq(n, _ => false)
  }

  lemma ZerosAppend(a: nat, b: nat)
    ensures Zeros(a) + Zeros(b) == Zeros(a + b)
  {
  }

  /** A byte whose bits agree one by one with c has c as its bits. */
  lemma ByteBitsFrom(v: bv8, c: seq<bool>)
    requires |c| == 8 && forall i :: 0 <= i < 8 ==> Bit(v, i) == c[i]
    ensures ByteBits(v) == c
  {
    forall i | 0 <= i < 8 ensures ByteBits(v)[i] == c[i] {
      ByteBitsAt(v, i);
    }
  }

  lemma ShiftedPairBitAt(x: bv8, y: bv8, sh: nat, v: bv8, m: nat)
    requires sh < 8 && m < 8 && v == Shl(x, sh) | Shr(y, 8 - sh)
    ensures Bit(v, m) == (ByteBits(x) + ByteBits(y))[sh + m]
  {
    ShiftedPairBit(x, y, sh, m);
    if sh + m < 8 {
      ByteBitsAt(x, sh + m);
    } else {
      ByteBitsAt(y, sh + m - 8);
    }
  }

  /** The byte v assembled from the low 8 - sh bits of x followed by the top sh bits
      of y holds bits sh..sh + 8 of x and y side by side. */
  lemma ShiftedPairBits(x: bv8, y: bv8, sh: nat, v: bv8)
    requires sh < 8 && v == Shl(x, sh) | Shr(y, 8 - sh)
    ensures ByteBits(v) == (ByteBits(x) + ByteBits(y))[sh..sh + 8]
  {
    var c := (ByteBits(x) + ByteBits(y))[sh..sh + 8];
    forall m | 0 <= m < 8 ensures Bit(v, m) == c[m] {
      ShiftedPairBitAt(x, y, sh, v, m);
    }
    ByteBitsFrom(v, c);
  }

  lemma MaskedBitAt(b: bv8, w: nat, nb: nat, mask: bv8, v: bv8, i: nat)
    requires w + nb == 8 && i < 8 && mask == Shl(0xFF, nb) && v == b & mask
    ensures Bit(v, i) == (ByteBits(b)[..w] + Zeros(nb))[i]
  {
    MaskedBit(b, nb, mask, v, i);
    ByteBitsAt(b, i);
  }

  /** The mask read builds for its last byte, 0x100 - (1 << nb) with nb in
      1..7, is 0xFF shifted left by nb. */
  lemma MaskValue(nb: nat)
    requires 1 <= nb <= 7
    ensures Shl(0xFF, nb) as int == 0x100 - Shl(1, nb) as int
  {
    if nb == 1 {
      assert Shl(0xFF, 1) == 0xFE && Shl(1, 1) == 0x02;
    } else if nb == 2 {
      assert Shl(0xFF, 2) == 0xFC && Shl(1, 2) == 0x04;
    } else if nb == 3 {
      assert Shl(0xFF, 3) == 0xF8 && Shl(1, 3) == 0x08;
    } else if nb == 4 {
      assert Shl(0xFF, 4) == 0xF0 && Shl(1, 4) == 0x10;
    } else if nb == 5 {
      assert Shl(0xFF, 5) == 0xE0 && Shl(1, 5) == 0x20;
    } else if nb == 6 {
      assert Shl(0xFF, 6) == 0xC0 && Shl(1, 6) == 0x40;
    } else {
      assert Shl(0xFF, 7) == 0x80 && Shl(1, 7) == 0x80;
    }
  }

  /** Masking with 0xFF shifted left by nb keeps the first w = 8 - nb bits and
      clears the rest. */
  lemma MaskedBits(b: bv8, w: nat, nb: nat, mask: bv8, v: bv8)
    requires w + nb == 8 && mask == Shl(0xFF, nb) && v == b & mask
    ensures ByteBits(v) == ByteBits(b)[..w] + Zeros(nb)
  {
    var c := ByteBits(b)[..w] + Zeros(nb);
    forall i | 0 <= i < 8 ensures Bit(v, i) == c[i] {
      MaskedBitAt(b, w, nb, mask, v, i);
    }
    ByteBitsFrom(v, c);
  }

  lemma ShlBitAt(x: bv8, k: nat, v: bv8, i: nat)
    requires k <= 8 && i < 8 && v == Shl(x, k)
    ensures Bit(v, i) == (ByteBits(x)[k..] + Zeros(k))[i]
  {
    ShlBit(x, k, i);
    if i + k < 8 {
      ByteBitsAt(x, i + k);
    }
  }

  /** Shifting left by k drops the first k bits and fills in k zero bits. */
  lemma ShlBits(x: bv8, k: nat, v: bv8)
    requires k <= 8 && v == Shl(x, k)
    ensures ByteBits(v) == ByteBits(x)[k..] + Zeros(k)
  {
    var c := ByteBits(x)[k..] + Zeros(k);
    forall i | 0 <= i < 8 ensures Bit(v, i) == c[i] {
      ShlBitAt(x, k, v, i);
    }
    ByteBitsFrom(v, c);
  }

  lemma JoinBitAt(l: bv8, x: bv8, o: nat, v: bv8, i: nat)
    requires o < 8 && i < 8 && v == l | Shr(x, o)
    requires o <= i ==> !Bit(l, i)
    ensures Bit(v, i) == if i < o then Bit(l, i) else Bit(x, i - o)
  {
    OrBit(l, Shr(x, o), i);
    ShrBit(x, o, i);
  }

  lemma ClearTailBit(l: bv8, o: nat, k: nat, i: nat)
    requires o <= i < 8 && k == 8 - o && ByteBits(l) == ByteBits(l)[..o] + Zeros(k)
    ensures !Bit(l, i)
  {
    ByteBitsAt(l, i);
  }

  lemma JoinBitsAt(l: bv8, x: bv8, o: nat, k: nat, v: bv8, i: nat, c: seq<bool>)
    requires o < 8 && k == 8 - o && i < 8 && v == l | Shr(x, o)
    requires ByteBits(l) == ByteBits(l)[..o] + Zeros(k)
    requires c == ByteBits(l)[..o] + ByteBits(x)[..k]
    ensures Bit(v, i) == c[i]
  {
    if o <= i {
      ClearTailBit(l, o, k, i);
      ByteBitsAt(x, i - o);
    } else {
      ByteBitsAt(l, i);
    }
    JoinBitAt(l, x, o, v, i);
  }

  /** Filling the clear tail of l, from bit o on, with the top k = 8 - o bits of x. */
  lemma JoinBits(l: bv8, x: bv8, o: nat, k: nat, v: bv8)
    requires o < 8 && k == 8 - o && v == l | Shr(x, o)
    requires ByteBits(l) == ByteBits(l)[..o] + Zeros(k)
    ensures ByteBits(v) == ByteBits(l)[..o] + ByteBits(x)[..k]
  {
    var c := ByteBits(l)[..o] + ByteBits(x)[..k];
    forall i | 0 <= i < 8 ensures Bit(v, i) == c[i] {
      JoinBitsAt(l, x, o, k, v, i, c);
    }
    ByteBitsFrom(v, c);
  }

  /** All bits of a byte string, in stream order. */
  function StreamBits(s: seq<bv8>): (r: seq<bool>)
    ensures |r| == 8 * |s|
  {
    if |s| == 0 then [] else ByteBits(s[0]) + StreamBits(s[1..])
  }

  lemma StreamBitsSingle(b: bv8)
    ensures StreamBits([b]) == ByteBits(b)
  {
    assert StreamBits([b]) == ByteBits(b) + StreamBits([]);
  }

  lemma StreamBitsPair(x: bv8, y: bv8)
    ensures StreamBits([x] + [y]) == ByteBits(x) + ByteBits(y)
  {
    StreamBitsSingle(y);
    StreamBitsCons(x, [y], ByteBits(x), ByteBits(y));
  }

  lemma {:induction false} StreamBitsAppend(s: seq<bv8>, t: seq<bv8>)
    ensures StreamBits(s + t) == StreamBits(s) + StreamBits(t)
    decreases |s|
  {
    if |s| == 0 {
      assert s + t == t;
    } else {
      assert (s + t)[1..] == s[1..] + t;
      StreamBitsAppend(s[1..], t);
    }
  }

  lemma StreamBitsAppend3(a: seq<bv8>, b: seq<bv8>, c: seq<bv8>)
    ensures StreamBits(a + b + c) == StreamBits(a) + StreamBits(b) + StreamBits(c)
  {
    StreamBitsAppend(a + b, c);
    StreamBitsAppend(a, b);
  }

  /** The bits of bytes i..j are bits 8 * i..8 * j of the stream. */
  lemma StreamBitsSlice(s: seq<bv8>, i: nat, j: nat, lo: nat, hi: nat)
    requires i <= j <= |s| && lo == 8 * i && hi == 8 * j
    ensures StreamBits(s)[lo..hi] == StreamBits(s[i..j])
  {
    assert s == s[..i] + s[i..j] + s[j..];
    StreamBitsAppend3(s[..i], s[i..j], s[j..]);
    SliceMiddle(StreamBits(s[..i]), StreamBits(s[i..j]), StreamBits(s[j..]));
  }

  /** Two byte strings with the same bits are equal. */
  lemma {:induction false} StreamBitsInjective(a: seq<bv8>, b: seq<bv8>)
    requires StreamBits(a) == StreamBits(b)
    ensures a == b
    decreases |a|
  {
    if |a| > 0 {
      assert ByteBits(a[0]) == StreamBits(a)[..8] == ByteBits(b[0]);
      ByteBitsInjective(a[0], b[0]);
      assert StreamBits(a[1..]) == StreamBits(a)[8..] == StreamBits(b[1..]);
      StreamBitsInjective(a[1..], b[1..]);
      assert a == [a[0]] + a[1..] && b == [b[0]] + b[1..];
    }
  }

  /** The number of zero bits that pad n bits to a whole number of bytes. */
  function Pad(n: nat): (r: nat)
    ensures r < 8 && (n + r) % 8 == 0 && n + r == 8 * ((n + 7) / 8)
  {
    (8 - n % 8) % 8
  }

  /** The byte with bit i set when b holds, and no other. */
  function Place(b: bool, i: nat): bv8
    requires i < 8
  {
    if b then BitMask(i) else 0
  }

  lemma PlaceBit(b: bool, k: nat, i: nat)
    requires k < 8 && i < 8
    ensures Bit(Place(b, k), i) == (b && k == i)
  {
  }

  /** The byte holding bs[i..8] at bit positions i..7 and zero above them. */
  function BitsValue(bs: seq<bool>, i: nat): bv8
    requires |bs| == 8 && i <= 8
    decreases 8 - i
  {
    if i == 8 then 0 else Place(bs[i], i) | BitsValue(bs, i + 1)
  }

  lemma {:induction false} BitsValueBit(bs: seq<bool>, i: nat, j: nat)
    requires |bs| == 8 && i <= 8 && j < 8
    ensures Bit(BitsValue(bs, i), j) == (i <= j && bs[j])
    decreases 8 - i
  {
    if i < 8 {
      OrBit(Place(bs[i], i), BitsValue(bs, i + 1), j);
      PlaceBit(bs[i], i, j);
      BitsValueBit(bs, i + 1, j);
    }
  }

  /** The byte whose bits are bs. */
  function FromBits(bs: seq<bool>): bv8
    requires |bs| == 8
  {
    BitsValue(bs, 0)
  }

  lemma FromBitsBit(bs: seq<bool>, i: nat)
    requires |bs| == 8 && i < 8
    ensures ByteBits(FromBits(bs))[i] == bs[i]
  {
    BitsValueBit(bs, 0, i);
    ByteBitsAt(FromBits(bs), i);
  }

  /** FromBits inverts ByteBits. */
  lemma FromBitsBits(bs: seq<bool>)
    requires |bs| == 8
    ensures ByteBits(FromBits(bs)) == bs
  {
    forall i | 0 <= i < 8 ensures ByteBits(FromBits(bs))[i] == bs[i] {
      FromBitsBit(bs, i);
    }
  }

  /** The bits packed MSB-first into bytes, the last byte padded with zero bits. */
  function Pack(bits: seq<bool>): (r: seq<bv8>)
    ensures |r| == (|bits| + 7) / 8
    decreases |bits|
  {
    if |bits| == 0 then []
    else if |bits| < 8 then [FromBits(bits + Zeros(8 - |bits|))]
    else [FromBits(bits[..8])] + Pack(bits[8..])
  }

  lemma PadShift(n: nat)
    requires 8 <= n
    ensures Pad(n - 8) == Pad(n)
  {
  }

  lemma StreamBitsCons(b: bv8, rest: seq<bv8>, head: seq<bool>, tail: seq<bool>)
    requires ByteBits(b) == head && StreamBits(rest) == tail
    ensures StreamBits([b] + rest) == head + tail
  {
    assert ([b] + rest)[1..] == rest;
  }

  lemma StreamBitsCons2(p: seq<bv8>, b: bv8, init: seq<bool>, last: seq<bool>)
    requires StreamBits(p) == init && ByteBits(b) == last
    ensures StreamBits(p + [b]) == init + last
  {
    StreamBitsAppend(p, [b]);
    StreamBitsSingle(b);
  }

  lemma PackCons(bits: seq<bool>, head: seq<bool>, tail: seq<bool>)
    requires 8 <= |bits| && head == bits[..8]
    requires StreamBits(Pack(bits[8..])) == tail
    ensures StreamBits(Pack(bits)) == head + tail
  {
    FromBitsBits(bits[..8]);
    StreamBitsCons(FromBits(bits[..8]), Pack(bits[8..]), head, tail);
  }

  /** A packed string of at least eight bits is its first byte followed by the
      packing of the rest. */
  lemma PackBitsStep(bits: seq<bool>)
    requires 8 <= |bits|
    requires StreamBits(Pack(bits[8..])) == bits[8..] + Zeros(Pad(|bits| - 8))
    ensures StreamBits(Pack(bits)) == bits + Zeros(Pad(|bits|))
  {
    PadShift(|bits|);
    PackCons(bits, bits[..8], bits[8..] + Zeros(Pad(|bits|)));
    SplitJoin(bits, 8, Zeros(Pad(|bits|)));
  }

  /** Packing only adds the zero padding: unpacking gives the bits back. */
  lemma {:induction false} PackBits(bits: seq<bool>)
    ensures StreamBits(Pack(bits)) == bits + Zeros(Pad(|bits|))
    decreases |bits|
  {
    if |bits| == 0 {
    } else if |bits| < 8 {
      FromBitsBits(bits + Zeros(8 - |bits|));
      StreamBitsSingle(FromBits(bits + Zeros(8 - |bits|)));
    } else {
      PackBits(bits[8..]);
      PackBitsStep(bits);
    }
  }

  /** One to eight bits pack into a single byte. */
  lemma PackByte(bits: seq<bool>)
    requires 0 < |bits| <= 8
    ensures Pack(bits) == [FromBits(bits + Zeros(8 - |bits|))]
  {
    if |bits| == 8 {
      assert bits[..8] == bits + Zeros(0);
      assert Pack(bits[8..]) == [];
    }
  }

  /** The bytes whose bits are exactly bits followed by zero padding are Pack(bits). */
  lemma PackUnique(r: seq<bv8>, bits: seq<bool>)
    requires StreamBits(r) == bits + Zeros(Pad(|bits|))
    ensures r == Pack(bits)
  {
    PackBits(bits);
    StreamBitsInjective(r, Pack(bits));
  }

  /** Unpacking is undone by packing. */
  lemma PackUnpack(s: seq<bv8>)
    ensures Pack(StreamBits(s)) == s
  {
    assert StreamBits(s) + Zeros(Pad(8 * |s|)) == StreamBits(s);
    PackUnique(s, StreamBits(s));
  }

  // Sequence helpers: slices of concatenations and of slices.

  lemma SliceMiddle<T>(x: seq<T>, y: seq<T>, z: seq<T>)
    ensures (x + y + z)[|x|..|x| + |y|] == y
  {
  }

  lemma SplitJoin<T>(a: seq<T>, k: nat, z: seq<T>)
    requires k <= |a|
    ensures a[..k] + (a[k..] + z) == a + z
  {
    assert a == a[..k] + a[k..];
  }

  lemma SuffixSlice<T>(a: seq<T>, z: seq<T>, lo: nat, hi: nat)
    requires lo == |a| && hi == lo + |z|
    ensures (a + z)[lo..hi] == z
  {
  }

  lemma AppendPrefix<T>(bits: seq<T>, t: seq<T>, n: nat, len: nat)
    requires n <= |t| && len == |bits| + n
    ensures (bits + t)[..len] == bits + t[..n]
  {
  }

  lemma TakeOfConcat<T>(a: seq<T>, z: seq<T>, n: nat)
    requires |a| == n
    ensures (a + z)[..n] == a
  {
  }

  lemma PrefixThrough<T>(p: seq<T>, q: seq<T>, r: seq<T>, n: nat, len: nat)
    requires n <= |q| && len == |p| + n
    ensures (p + q + r)[..len] == p + q[..n]
  {
  }

  lemma PrefixWithin<T>(p: seq<T>, q: seq<T>, o: nat, n: nat, len: nat)
    requires n <= o <= |q| && len == |p| + n
    ensures (p + q[..o])[..len] == p + q[..n]
  {
  }

  lemma Regroup<T>(p: seq<T>, q: seq<T>, x: seq<T>, k: nat)
    requires k <= |x|
    ensures p + (q + x[..k]) + x[k..] == (p + q) + x
  {
    assert x[..k] + x[k..] == x;
  }

  lemma PrefixSlice<T>(a: seq<T>, z: seq<T>, i: nat, j: nat)
    requires i <= j <= |a|
    ensures (a + z)[i..j] == a[i..j]
  {
  }

  lemma SliceOfSlice<T>(a: seq<T>, i: nat, j: nat, p: nat, q: nat, x: nat, y: nat)
    requires i <= j <= |a| && p <= q <= j - i && x == i + p && y == i + q
    ensures a[i..j][p..q] == a[x..y]
  {
    forall t | 0 <= t < q - p ensures a[i..j][p..q][t] == a[x..y][t] {
    }
  }

  lemma PrefixOfSlice<T>(a: seq<T>, i: nat, j: nat, w: nat, f: nat)
    requires i <= j <= |a| && w <= j - i && f == i + w
    ensures a[i..j][..w] == a[i..f]
  {
  }

  lemma SliceJoin<T>(a: seq<T>, i: nat, j: nat, l: nat)
    requires i <= j <= l <= |a|
    ensures a[i..j] + a[j..l] == a[i..l]
  {
  }

  lemma SplitConcat<T>(t: seq<T>, a: nat, m: nat, e: nat, x: seq<T>, y: seq<T>)
    requires a <= m <= e <= |t| && |x| == m - a && x + y == t[a..e]
    ensures x == t[a..m] && y == t[m..e]
  {
    assert x == (x + y)[..m - a];
    assert y == (x + y)[m - a..];
  }

  lemma JoinPadded<T>(t: seq<T>, a: nat, m: nat, e: nat, z: seq<T>)
    requires a <= m <= e <= |t|
    ensures t[a..m] + (t[m..e] + z) == t[a..e] + z
  {
    SliceJoin(t, a, m, e);
  }
}
