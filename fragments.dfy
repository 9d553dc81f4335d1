/** The write-then-read round trip of the bit-fragment tests (amr.py:182-226):
    fragments are put into a fresh merger one after the other, and reading each
    fragment's width back from the merged bytes returns that fragment with its
    unused low bits cleared, which is what a fresh merger holding only that
    fragment returns. */
module Fragments {
  import opened Bits
  import opened Errors
  import opened Reader
  import opened Merger

  /** The arguments of one put: bytes, and how many of their leading bits to keep. */
  datatype Fragment = Fragment(data: seq<bv8>, bitlen: int)

  /** put on the merged bit string, as written or with the defect removed. */
  function PutFragment(bits: seq<bool>, f: Fragment, corrected: bool): Result<seq<bool>>
  {
    if corrected then PutBitsCorrected(bits, f.data, f.bitlen) else PutBits(bits, f.data, f.bitlen)
  }

  /** The merged bit string after putting every fragment, in order, into a fresh
      merger; the first failing put ends the sequence. */
  function Merge(frags: seq<Fragment>, corrected: bool): (r: Result<seq<bool>>)
    ensures r.Err? ==> r.error == IndexError
  {
    if |frags| == 0 then Ok([])
    else
      var prev := Merge(frags[..|frags| - 1], corrected);
      if prev.Err? then prev
      else PutFragment(prev.value, frags[|frags| - 1], corrected)
  }

  /** Every fragment is one put accepts, with a non-negative width. */
  predicate WellFormed(frags: seq<Fragment>)
  {
    forall i :: 0 <= i < |frags| ==> 0 <= frags[i].bitlen && FitsFragment(frags[i].data, frags[i].bitlen)
  }

  /** The total width of the fragments. */
  function Width(frags: seq<Fragment>): nat
    requires WellFormed(frags)
  {
    if |frags| == 0 then 0 else Width(frags[..|frags| - 1]) + frags[|frags| - 1].bitlen
  }

  /** The kept bits of one fragment. */
  function Taken(f: Fragment): seq<bool>
    requires 0 <= f.bitlen <= 8 * |f.data|
  {
    StreamBits(f.data)[..f.bitlen]
  }

  /** The kept bits of all fragments, one after the other. */
  function Concat(frags: seq<Fragment>): (r: seq<bool>)
    requires WellFormed(frags)
    ensures |r| == Width(frags)
  {
    if |frags| == 0 then [] else Concat(frags[..|frags| - 1]) + Taken(frags[|frags| - 1])
  }

  /** No fragment is a whole number of bytes put after a partial byte: the
      condition under which put as written keeps every bit. */
  predicate NoLoss(frags: seq<Fragment>)
    requires WellFormed(frags)
  {
    forall i :: 0 <= i < |frags| ==> Width(frags[..i]) % 8 == 0 || frags[i].bitlen % 8 != 0
  }

  lemma PrefixWellFormed(frags: seq<Fragment>, n: nat)
    requires WellFormed(frags) && n <= |frags|
    ensures WellFormed(frags[..n])
    ensures forall i :: 0 <= i < n ==> frags[..n][i] == frags[i]
  {
  }

  /** A prefix of fragments that lose nothing loses nothing. */
  lemma PrefixNoLoss(frags: seq<Fragment>, n: nat)
    requires WellFormed(frags) && NoLoss(frags) && n <= |frags|
    ensures WellFormed(frags[..n]) && NoLoss(frags[..n])
  {
    PrefixWellFormed(frags, n);
    forall i | 0 <= i < n
      ensures Width(frags[..n][..i]) % 8 == 0 || frags[..n][i].bitlen % 8 != 0
    {
      assert frags[..n][..i] == frags[..i];
    }
  }

  /** Merging appends every fragment's kept bits: always with the corrected
      put, and with put as written when no fragment loses its last byte. */
  lemma {:induction false} MergeConcat(frags: seq<Fragment>, corrected: bool)
    requires WellFormed(frags) && (corrected || NoLoss(frags))
    ensures Merge(frags, corrected) == Ok(Concat(frags))
    decreases |frags|
  {
    if |frags| > 0 {
      var n := |frags| - 1;
      var f := frags[n];
      PrefixWellFormed(frags, n);
      if !corrected {
        PrefixNoLoss(frags, n);
      }
      MergeConcat(frags[..n], corrected);
      if corrected {
        PutCorrectedAppends(Concat(frags[..n]), f.data, f.bitlen);
      } else {
        PutAppends(Concat(frags[..n]), f.data, f.bitlen);
      }
    }
  }

  /** Each fragment's kept bits sit in the concatenation at the total width of
      the fragments before it. */
  lemma {:induction false} ConcatSlice(frags: seq<Fragment>, i: nat, lo: nat, hi: nat)
    requires WellFormed(frags) && i < |frags|
    requires lo == Width(frags[..i]) && hi == lo + frags[i].bitlen
    ensures hi <= Width(frags) && Concat(frags)[lo..hi] == Taken(frags[i])
    decreases |frags|
  {
    var n := |frags| - 1;
    PrefixWellFormed(frags, n);
    assert frags[..n][..i] == frags[..i];
    if i < n {
      ConcatSlice(frags[..n], i, lo, hi);
      PrefixSlice(Concat(frags[..n]), Taken(frags[n]), lo, hi);
    } else {
      assert frags[..n] == frags[..i];
      SuffixSlice(Concat(frags[..n]), Taken(frags[n]), lo, hi);
    }
  }

  /** The next fragment starts where this one ends. */
  lemma WidthStep(frags: seq<Fragment>, i: nat)
    requires WellFormed(frags) && i < |frags|
    ensures Width(frags[..i + 1]) == Width(frags[..i]) + frags[i].bitlen
  {
    PrefixWellFormed(frags, i + 1);
    assert frags[..i + 1][..i] == frags[..i];
  }

  /** Reading back bits that hold one fragment's kept bits returns what a fresh
      merger holding only that fragment returns. */
  lemma ReadTaken(all: seq<bool>, lo: nat, n: nat, hi: nat, f: Fragment)
    requires n == f.bitlen && FitsFragment(f.data, n) && hi == lo + n && hi <= |all|
    requires all[lo..hi] == Taken(f)
    ensures PutBits([], f.data, n).Ok?
    ensures ReadBits(Pack(all), lo, n) == Ok(Pack(PutBits([], f.data, n).value))
  {
    FreshPut(f);
    ReadPacked(all, lo, n, hi);
  }

  /** A fresh merger holds exactly the kept bits of the one fragment put into it. */
  lemma FreshPut(f: Fragment)
    requires 0 <= f.bitlen && FitsFragment(f.data, f.bitlen)
    ensures PutBits([], f.data, f.bitlen) == Ok(Taken(f))
  {
    PutAppends([], f.data, f.bitlen);
    assert [] + Taken(f) == Taken(f);
  }

  /** The round trip of the tests (amr.py:182-192): the merged bit string has the
      total width, and reading fragment i back from the merged bytes at the total
      width of the fragments before it returns what a fresh merger holding only
      fragment i returns. As written this needs NoLoss; corrected, it always holds. */
  lemma RoundTrip(frags: seq<Fragment>, corrected: bool, i: nat)
    requires WellFormed(frags) && (corrected || NoLoss(frags)) && i < |frags|
    ensures Merge(frags, corrected).Ok? && |Merge(frags, corrected).value| == Width(frags)
    ensures PutBits([], frags[i].data, frags[i].bitlen).Ok?
    ensures ReadBits(Pack(Merge(frags, corrected).value), Width(frags[..i]), frags[i].bitlen)
            == Ok(Pack(PutBits([], frags[i].data, frags[i].bitlen).value))
  {
    MergeConcat(frags, corrected);
    var lo, n := Width(frags[..i]), frags[i].bitlen;
    ConcatSlice(frags, i, lo, lo + n);
    ReadTaken(Concat(frags), lo, n, lo + n, frags[i]);
  }
}
