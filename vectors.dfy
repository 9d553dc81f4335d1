/** The five concrete bit-fragment tests (amr.py:182-226), and the input that
    shows put losing a whole-byte fragment after a partial byte. */
module Vectors {
  import opened Bits
  import opened Errors
  import opened Reader
  import opened Merger
  import opened Fragments

  /** What the test template checks (amr.py:182-192): the merged bytes are out
      and the merged width is the total width of the fragments, and reading each
      fragment back from out returns what a fresh merger holding only that
      fragment returns. */
  predicate TemplatePasses(frags: seq<Fragment>, out: seq<bv8>, corrected: bool)
  {
    && WellFormed(frags)
    && Merge(frags, corrected).Ok?
    && Pack(Merge(frags, corrected).value) == out
    && |Merge(frags, corrected).value| == Width(frags)
    && forall i :: 0 <= i < |frags| ==>
         PutBits([], frags[i].data, frags[i].bitlen).Ok? &&
         ReadBits(out, Width(frags[..i]), frags[i].bitlen) == Ok(Pack(PutBits([], frags[i].data, frags[i].bitlen).value))
  }

  /** The template passes whenever out holds the kept bits of the fragments, zero
      padded, and no fragment triggers the lost byte. */
  lemma Template(frags: seq<Fragment>, out: seq<bv8>, corrected: bool)
    requires WellFormed(frags) && (corrected || NoLoss(frags))
    requires StreamBits(out) == Concat(frags) + Zeros(Pad(Width(frags)))
    ensures TemplatePasses(frags, out, corrected)
  {
    MergeConcat(frags, corrected);
    PackUnique(out, Concat(frags));
    forall i | 0 <= i < |frags|
      ensures PutBits([], frags[i].data, frags[i].bitlen).Ok?
      ensures ReadBits(out, Width(frags[..i]), frags[i].bitlen) == Ok(Pack(PutBits([], frags[i].data, frags[i].bitlen).value))
    {
      RoundTrip(frags, corrected, i);
    }
  }

  /** A byte written out bit by bit. */
  lemma ByteBitsOf(v: bv8, c: seq<bool>)
    requires |c| == 8
    requires Bit(v, 0) == c[0] && Bit(v, 1) == c[1] && Bit(v, 2) == c[2] && Bit(v, 3) == c[3]
    requires Bit(v, 4) == c[4] && Bit(v, 5) == c[5] && Bit(v, 6) == c[6] && Bit(v, 7) == c[7]
    ensures ByteBits(v) == c
  {
    forall i | 0 <= i < 8 ensures Bit(v, i) == c[i] {
      assert i == 0 || i == 1 || i == 2 || i == 3 || i == 4 || i == 5 || i == 6 || i == 7;
    }
    ByteBitsFrom(v, c);
  }

  /** The kept bits of two one-byte fragments. */
  lemma TwoFragments(x: bv8, l1: nat, y: bv8, l2: nat, frags: seq<Fragment>)
    requires 1 <= l1 <= 8 && 1 <= l2 <= 8 && frags == [Fragment([x], l1), Fragment([y], l2)]
    ensures WellFormed(frags) && Width(frags[..1]) == l1 && Width(frags) == l1 + l2
    ensures Concat(frags) == ByteBits(x)[..l1] + ByteBits(y)[..l2]
  {
    StreamBitsSingle(x);
    StreamBitsSingle(y);
    assert frags[..1] == [frags[0]];
    assert frags[..1][..0] == [];
    assert [] + ByteBits(x)[..l1] == ByteBits(x)[..l1];
  }

  /** A two-fragment test whose second fragment is not lost. */
  lemma TwoFragmentTest(x: bv8, l1: nat, y: bv8, l2: nat, frags: seq<Fragment>, out: seq<bv8>)
    requires 1 <= l1 <= 8 && 1 <= l2 <= 8 && frags == [Fragment([x], l1), Fragment([y], l2)]
    requires l1 == 8 || l2 != 8
    requires StreamBits(out) == ByteBits(x)[..l1] + ByteBits(y)[..l2] + Zeros(Pad(l1 + l2))
    ensures TemplatePasses(frags, out, false)
  {
    TwoFragments(x, l1, y, l2, frags);
    assert frags[..0] == [];
    assert NoLoss(frags);
    Template(frags, out, false);
  }

  const T := true
  const F := false

  /** test1 (amr.py:193-198): (AA, 8) then (55, 8) gives (AA55, 16). */
  lemma Test1()
    ensures TemplatePasses([Fragment([0xAA], 8), Fragment([0x55], 8)], [0xAA, 0x55], false)
  {
    ByteBitsOf(0xAA, [T, F, T, F, T, F, T, F]);
    ByteBitsOf(0x55, [F, T, F, T, F, T, F, T]);
    StreamBitsPair(0xAA, 0x55);
    TwoFragmentTest(0xAA, 8, 0x55, 8, [Fragment([0xAA], 8), Fragment([0x55], 8)], [0xAA, 0x55]);
  }

  /** test2 (amr.py:200-205): (AA, 8) then (55, 6) gives (AA54, 14). */
  lemma Test2()
    ensures TemplatePasses([Fragment([0xAA], 8), Fragment([0x55], 6)], [0xAA, 0x54], false)
  {
    ByteBitsOf(0xAA, [T, F, T, F, T, F, T, F]);
    ByteBitsOf(0x55, [F, T, F, T, F, T, F, T]);
    ByteBitsOf(0x54, [F, T, F, T, F, T, F, F]);
    StreamBitsPair(0xAA, 0x54);
    TwoFragmentTest(0xAA, 8, 0x55, 6, [Fragment([0xAA], 8), Fragment([0x55], 6)], [0xAA, 0x54]);
  }

  /** test3 (amr.py:207-212): (AA, 3) then (55, 4) gives (AA, 7). */
  lemma Test3()
    ensures TemplatePasses([Fragment([0xAA], 3), Fragment([0x55], 4)], [0xAA], false)
  {
    ByteBitsOf(0xAA, [T, F, T, F, T, F, T, F]);
    ByteBitsOf(0x55, [F, T, F, T, F, T, F, T]);
    StreamBitsSingle(0xAA);
    TwoFragmentTest(0xAA, 3, 0x55, 4, [Fragment([0xAA], 3), Fragment([0x55], 4)], [0xAA]);
  }

  /** test4 (amr.py:214-219): (AA, 3) then (5B, 5) gives (AB, 8). */
  lemma Test4()
    ensures TemplatePasses([Fragment([0xAA], 3), Fragment([0x5B], 5)], [0xAB], false)
  {
    ByteBitsOf(0xAA, [T, F, T, F, T, F, T, F]);
    ByteBitsOf(0x5B, [F, T, F, T, T, F, T, T]);
    ByteBitsOf(0xAB, [T, F, T, F, T, F, T, T]);
    StreamBitsSingle(0xAB);
    TwoFragmentTest(0xAA, 3, 0x5B, 5, [Fragment([0xAA], 3), Fragment([0x5B], 5)], [0xAB]);
  }

  /** test5 (amr.py:221-226): (AA, 6) then (5B, 7) gives (A968, 13). */
  lemma Test5()
    ensures TemplatePasses([Fragment([0xAA], 6), Fragment([0x5B], 7)], [0xA9, 0x68], false)
  {
    ByteBitsOf(0xAA, [T, F, T, F, T, F, T, F]);
    ByteBitsOf(0x5B, [F, T, F, T, T, F, T, T]);
    ByteBitsOf(0xA9, [T, F, T, F, T, F, F, T]);
    ByteBitsOf(0x68, [F, T, T, F, T, F, F, F]);
    StreamBitsPair(0xA9, 0x68);
    TwoFragmentTest(0xAA, 6, 0x5B, 7, [Fragment([0xAA], 6), Fragment([0x5B], 7)], [0xA9, 0x68]);
  }

  /** The lost byte (amr.py:86-88): after (AA, 3), putting (55, 8) leaves the
      merged bits unchanged, so the template with (AAA0, 11) fails as written;
      the corrected put gives (AAA0, 11) and the template passes. */
  lemma LostByteWitness()
    ensures Merge([Fragment([0xAA], 3), Fragment([0x55], 8)], false) == Merge([Fragment([0xAA], 3)], false)
    ensures !TemplatePasses([Fragment([0xAA], 3), Fragment([0x55], 8)], [0xAA, 0xA0], false)
    ensures TemplatePasses([Fragment([0xAA], 3), Fragment([0x55], 8)], [0xAA, 0xA0], true)
  {
    var frags := [Fragment([0xAA], 3), Fragment([0x55], 8)];
    ByteBitsOf(0xAA, [T, F, T, F, T, F, T, F]);
    ByteBitsOf(0x55, [F, T, F, T, F, T, F, T]);
    ByteBitsOf(0xA0, [T, F, T, F, F, F, F, F]);
    StreamBitsPair(0xAA, 0xA0);
    TwoFragments(0xAA, 3, 0x55, 8, frags);
    var head := frags[..1];
    assert head == [Fragment([0xAA], 3)] && head[..0] == [];
    assert NoLoss(head);
    MergeConcat(head, false);
    var bits := Concat(head);
    assert |bits| == 3;
    assert (bits + StreamBits([0x55]))[..3] == bits;
    Template(frags, [0xAA, 0xA0], true);
  }
}
