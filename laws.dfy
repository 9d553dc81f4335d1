/** What the converter's payload grammar guarantees (amr.py:125-155, 163-167):
    where header skipping stops, what the table of contents holds, what the
    frame loop writes or why it stops, and how the file magic encodes the
    configuration. */
module ConverterLaws {
  import opened Bits
  import opened Errors
  import opened Reader
  import opened Converter

  /** In octet-aligned mode round gives the least multiple of 8 that is at least n. */
  lemma RoundLeast(n: nat, m: nat)
    requires m % 8 == 0 && n <= m
    ensures Round(true, n) <= m
  {
    var r := Round(true, n);
    assert r - 8 < n;
    assert (m - r) % 8 == 0;
  }

  /** Header skipping stops just past the first header that is not all zero:
      it stops a whole number of headers past off, every header before that
      one is all zero, and that one has a set bit. */
  lemma {:induction false} SkipHeadersFirstNonZero(bits: seq<bool>, off: nat, w: nat)
    requires 0 < w <= 8
    ensures var r := SkipHeaders(bits, off, w);
            r.Ok? ==> off + w <= r.value <= |bits| && (r.value - off) % w == 0
                      && ZeroField(bits, off, r.value - w - off) && !ZeroField(bits, r.value - w, w)
    decreases |bits| - off
  {
    if off + w > |bits| {
    } else if ZeroField(bits, off, w) {
      SkipHeadersFirstNonZero(bits, off + w, w);
      var r := SkipHeaders(bits, off + w, w);
      assert SkipHeaders(bits, off, w) == r;
      if r.Ok? {
        FirstNonZeroStep(bits, off, w, r.value);
      }
    } else {
      ModShift(w, w);
      ModShift(0, w);
    }
  }

  /** One zero header before a run of zero headers ending at v is a longer run. */
  lemma FirstNonZeroStep(bits: seq<bool>, off: nat, w: nat, v: nat)
    requires 0 < w <= 8 && off + w <= |bits| && ZeroField(bits, off, w)
    requires off + w + w <= v <= |bits| && (v - (off + w)) % w == 0
    requires ZeroField(bits, off + w, v - w - (off + w)) && !ZeroField(bits, v - w, w)
    ensures off + w <= v <= |bits| && (v - off) % w == 0
            && ZeroField(bits, off, v - w - off) && !ZeroField(bits, v - w, w)
  {
    ModShift(v - off, w);
  }

  /** Header skipping fails exactly when every header that fits after off is
      all zero, that is when all bits up to the end of the last whole header
      are clear (or off is already past the end). */
  lemma {:induction false} SkipHeadersExhausted(bits: seq<bool>, off: nat, w: nat)
    requires 0 < w <= 8
    ensures SkipHeaders(bits, off, w).Err?
            <==> off > |bits| || ZeroField(bits, off, (|bits| - off) - (|bits| - off) % w)
    decreases |bits| - off
  {
    var x := |bits| - off;
    if off + w <= |bits| {
      ModShift(x, w);
      ModShift(x - w, w);
      if ZeroField(bits, off, w) {
        SkipHeadersExhausted(bits, off + w, w);
        var m: nat := (x - w) - (x - w) % w;
        assert ZeroField(bits, off, w + m) <==> ZeroField(bits, off + w, m);
      } else {
        var j :| off <= j < off + w && bits[j];
      }
    } else if off <= |bits| {
      ModShift(x, w);
    }
  }

  /** What the header lemmas use about the bits left over after the whole
      headers: fewer than a header width, unchanged by taking one header off. */
  lemma ModShift(x: int, w: nat)
    requires 0 < w && 0 <= x
    ensures 0 <= x % w <= x
    ensures x < w ==> x % w == x
    ensures w <= x ==> x % w == (x - w) % w
  {
    if x < w {
      DivUnique(x, w, 0, x);
    } else {
      var q, r := (x - w) / w, (x - w) % w;
      assert x == (q + 1) * w + r;
      DivUnique(x, w, q + 1, r);
    }
  }

  /** Quotient and remainder are unique. */
  lemma DivUnique(x: int, w: int, q: int, r: int)
    requires 0 < w && 0 <= r < w && x == q * w + r
    ensures x % w == r
  {
    var q', r' := x / w, x % w;
    assert (q - q') * w == r' - r;
    if q > q' {
      MulAtLeast(q - q', w);
    } else if q < q' {
      MulAtLeast(q' - q, w);
    }
  }

  /** A positive multiple of w is at least w. */
  lemma {:induction false} MulAtLeast(a: int, w: int)
    requires 1 <= a && 0 < w
    ensures a * w >= w
    decreases a
  {
    if a > 1 {
      MulAtLeast(a - 1, w);
      assert a * w == (a - 1) * w + w;
    }
  }

  /** When no bit from off on is set, header skipping runs off the end of the
      data: trailing zero bytes end in IndexError (amr.py:21-22, 137-138). */
  lemma {:induction false} SkipHeadersTrailingZeros(bits: seq<bool>, off: nat, w: nat)
    requires 0 < w <= 8 && off <= |bits| && ZeroField(bits, off, |bits| - off)
    ensures SkipHeaders(bits, off, w) == Err(IndexError)
    decreases |bits| - off
  {
    if off + w <= |bits| {
      assert ZeroField(bits, off, w);
      SkipHeadersTrailingZeros(bits, off + w, w);
    }
  }

  /** The bit offset of the i-th of a run of w-bit fields starting at off. */
  function Slot(off: nat, w: nat, i: nat): (r: nat)
    ensures r >= off
  {
    off + w * i
  }

  lemma SlotStep(off: nat, w: nat, i: nat)
    requires 0 < i
    ensures Slot(off + w, w, i - 1) == Slot(off, w, i)
  {
    assert w * i == w * (i - 1) + w;
  }

  /** The w-bit fields in slots 0..k - 1 from off, in order. */
  function Fields(bits: seq<bool>, off: nat, w: nat, k: nat): (r: seq<bv8>)
    requires 0 < w <= 8 && Slot(off, w, k) <= |bits|
    ensures |r| == k
    decreases k
  {
    if k == 0 then []
    else
      SlotStep(off, w, k);
      [Field(bits, off, w)] + Fields(bits, off + w, w, k - 1)
  }

  /** Stored entries toc for the fields f: each field masked with 0x7C, and
      the F bit (0x80) set on every field but the last. */
  predicate TocOf(toc: seq<bv8>, f: seq<bv8>)
  {
    && |toc| == |f|
    && forall i :: 0 <= i < |f| ==> toc[i] == f[i] & 0x7C && (f[i] & 0x80 != 0 <==> i < |f| - 1)
  }

  lemma TocOfCons(t: bv8, toc: seq<bv8>, x: bv8, f: seq<bv8>)
    requires TocOf(toc, f) && 0 < |f| && t == x & 0x7C && x & 0x80 != 0
    ensures TocOf([t] + toc, [x] + f)
  {
    var toc', f' := [t] + toc, [x] + f;
    forall i | 0 <= i < |f'| ensures toc'[i] == f'[i] & 0x7C && (f'[i] & 0x80 != 0 <==> i < |f'| - 1) {
      if 0 < i {
        assert toc'[i] == toc[i - 1] && f'[i] == f[i - 1];
      }
    }
  }

  /** A field with its F bit clear ends the table of contents by itself. */
  lemma TocLast(bits: seq<bool>, off: nat, w: nat)
    requires 0 < w <= 8 && off + w <= |bits| && Field(bits, off, w) & 0x80 == 0
    ensures var r := ReadToc(bits, off, w);
            r.Ok? && r.value.1 == Slot(off, w, |r.value.0|) &&
            TocOf(r.value.0, Fields(bits, off, w, |r.value.0|))
  {
    var x := Field(bits, off, w);
    assert ReadToc(bits, off, w).value.0 == [x & 0x7C];
    assert Fields(bits, off, w, 1) == [x] + Fields(bits, off + w, w, 0);
  }

  /** A field with its F bit set, in front of a table read from the next slot. */
  lemma TocCons(bits: seq<bool>, off: nat, w: nat)
    requires 0 < w <= 8 && off + w <= |bits| && Field(bits, off, w) & 0x80 != 0
    requires var r := ReadToc(bits, off + w, w);
             r.Ok? ==> r.value.1 == Slot(off + w, w, |r.value.0|) &&
                       TocOf(r.value.0, Fields(bits, off + w, w, |r.value.0|))
    ensures var r := ReadToc(bits, off, w);
            r.Ok? ==> r.value.1 == Slot(off, w, |r.value.0|) &&
                      TocOf(r.value.0, Fields(bits, off, w, |r.value.0|))
  {
    var x := Field(bits, off, w);
    var rest := ReadToc(bits, off + w, w);
    if rest.Ok? {
      var toc := rest.value.0;
      var k := |toc|;
      assert ReadToc(bits, off, w).value == ([x & 0x7C] + toc, rest.value.1);
      SlotStep(off, w, k + 1);
      assert Fields(bits, off, w, k + 1) == [x] + Fields(bits, off + w, w, k);
      TocOfCons(x & 0x7C, toc, x, Fields(bits, off + w, w, k));
    }
  }

  /** A successful table of contents holds, in order, the entries up to and
      including the first whose F bit is clear, each masked with 0x7C, and ends
      just past that entry. */
  lemma {:induction false} ReadTocEntriesOk(bits: seq<bool>, off: nat, w: nat)
    requires 0 < w <= 8
    ensures var r := ReadToc(bits, off, w);
            r.Ok? ==> r.value.1 == Slot(off, w, |r.value.0|) &&
                      TocOf(r.value.0, Fields(bits, off, w, |r.value.0|))
    decreases |bits| - off
  {
    if off + w <= |bits| {
      if Field(bits, off, w) & 0x80 == 0 {
        TocLast(bits, off, w);
      } else {
        ReadTocEntriesOk(bits, off + w, w);
        TocCons(bits, off, w);
      }
    }
  }

  /** Every one of the k fields from off has its F bit set. */
  predicate AllFollow(f: seq<bv8>)
  {
    forall i :: 0 <= i < |f| ==> f[i] & 0x80 != 0
  }

  /** Every run of fields from off that fits in bits has all its F bits set. */
  ghost predicate NeverEnds(bits: seq<bool>, off: nat, w: nat)
    requires 0 < w <= 8
  {
    forall k: nat :: Slot(off, w, k) <= |bits| ==> AllFollow(Fields(bits, off, w, k))
  }

  /** No field fits: the table cannot be read, and there is no field to end it. */
  lemma TocErrEnd(bits: seq<bool>, off: nat, w: nat)
    requires 0 < w <= 8 && off + w > |bits|
    ensures ReadToc(bits, off, w).Err? && NeverEnds(bits, off, w)
  {
    forall k: nat | Slot(off, w, k) <= |bits| ensures AllFollow(Fields(bits, off, w, k)) {
      if 0 < k {
        SlotStep(off, w, k);
      }
    }
  }

  /** A field with its F bit clear ends the table, which is then read. */
  lemma TocErrLast(bits: seq<bool>, off: nat, w: nat)
    requires 0 < w <= 8 && off + w <= |bits| && Field(bits, off, w) & 0x80 == 0
    ensures ReadToc(bits, off, w).Ok? && !NeverEnds(bits, off, w)
  {
    var f := Fields(bits, off, w, 1);
    assert f == [Field(bits, off, w)] + Fields(bits, off + w, w, 0);
    assert !AllFollow(f) by {
      assert f[0] & 0x80 == 0;
    }
  }

  /** A field with its F bit set passes failure and its cause on to the next slot. */
  lemma TocErrCons(bits: seq<bool>, off: nat, w: nat)
    requires 0 < w <= 8 && off + w <= |bits| && Field(bits, off, w) & 0x80 != 0
    requires ReadToc(bits, off + w, w).Err? <==> NeverEnds(bits, off + w, w)
    ensures ReadToc(bits, off, w).Err? <==> NeverEnds(bits, off, w)
  {
    var x := Field(bits, off, w);
    assert ReadToc(bits, off, w).Err? <==> ReadToc(bits, off + w, w).Err?;
    if NeverEnds(bits, off + w, w) {
      forall k: nat | Slot(off, w, k) <= |bits| ensures AllFollow(Fields(bits, off, w, k)) {
        if 0 < k {
          SlotStep(off, w, k);
          assert AllFollow(Fields(bits, off + w, w, k - 1));
          assert Fields(bits, off, w, k) == [x] + Fields(bits, off + w, w, k - 1);
        }
      }
    } else {
      var k: nat :| Slot(off + w, w, k) <= |bits| && !AllFollow(Fields(bits, off + w, w, k));
      SlotStep(off, w, k + 1);
      var f := Fields(bits, off, w, k + 1);
      assert f == [x] + Fields(bits, off + w, w, k);
      var i :| 0 <= i < k && Fields(bits, off + w, w, k)[i] & 0x80 == 0;
      assert f[i + 1] & 0x80 == 0;
    }
  }

  /** The table of contents fails exactly when every entry that fits has its F
      bit set, so that the list never ends inside the data. */
  lemma {:induction false} ReadTocEntriesErr(bits: seq<bool>, off: nat, w: nat)
    requires 0 < w <= 8
    ensures ReadToc(bits, off, w).Err? <==>
            forall k: nat :: Slot(off, w, k) <= |bits| ==> AllFollow(Fields(bits, off, w, k))
    decreases |bits| - off
  {
    if off + w > |bits| {
      TocErrEnd(bits, off, w);
    } else if Field(bits, off, w) & 0x80 == 0 {
      TocErrLast(bits, off, w);
    } else {
      ReadTocEntriesErr(bits, off + w, w);
      TocErrCons(bits, off, w);
    }
  }

  /** A stored entry t & 0x7C keeps the low four bits of the frame type, so its
      frame type fits the 4-bit field of RFC 4867; one that passes the reserved
      check carries a payload or is NO_DATA and above. */
  lemma StoredMode(t: bv8, wb: bool)
    ensures var m := Mode(t & 0x7C);
            m < 16 && m == Mode(t) % 16 && (!Reserved(wb, m) ==> m <= NModes(wb) || NoData(wb) <= m)
  {
    assert (t & 0x7C) >> 3 == (t >> 3) & 0x0F;
  }

  /** The payload bits a frame of entry t reads: none for NO_DATA and above. */
  function FrameBits(wb: bool, octetAlign: bool, t: bv8): nat
  {
    if Mode(t) <= NModes(wb) then PayloadBits(wb, octetAlign, Mode(t)) else 0
  }

  /** The bytes a complete frame of entry t writes: the entry, then the payload
      padded to whole bytes. */
  function FrameBytes(wb: bool, octetAlign: bool, t: bv8): nat
  {
    1 + (FrameBits(wb, octetAlign, t) + 7) / 8
  }

  /** What one pass of the frame loop does, by the kind of entry and by whether
      its payload fits in the data. */
  lemma FrameCases(s: seq<bv8>, off: nat, t: bv8, wb: bool, octetAlign: bool)
    requires off <= 8 * |s|
    ensures var f := Frame(s, off, t, wb, octetAlign);
            Reserved(wb, Mode(t)) ==> f == Run([], 0, off, Fail(InvalidMode(Mode(t))))
    ensures var f := Frame(s, off, t, wb, octetAlign);
            !Reserved(wb, Mode(t)) && off + FrameBits(wb, octetAlign, t) > 8 * |s| ==>
              Mode(t) <= NModes(wb) && f == Run([t], 1, off, Fail(IndexError))
    ensures var f := Frame(s, off, t, wb, octetAlign);
            !Reserved(wb, Mode(t)) && off + FrameBits(wb, octetAlign, t) <= 8 * |s| ==>
              f.status == Pass && f.samples == 1 && f.offset == off + FrameBits(wb, octetAlign, t) &&
              |f.out| == FrameBytes(wb, octetAlign, t) && f.out[0] == t
  {
  }

  /** The bytes complete frames of the entries toc write. */
  function OutBytes(wb: bool, octetAlign: bool, toc: seq<bv8>): nat
  {
    if |toc| == 0 then 0 else FrameBytes(wb, octetAlign, toc[0]) + OutBytes(wb, octetAlign, toc[1..])
  }

  /** The payload bits complete frames of the entries toc read. */
  function TocBits(wb: bool, octetAlign: bool, toc: seq<bv8>): nat
  {
    if |toc| == 0 then 0 else FrameBits(wb, octetAlign, toc[0]) + TocBits(wb, octetAlign, toc[1..])
  }

  /** No entry of toc has a reserved frame type. */
  predicate NoReserved(wb: bool, toc: seq<bv8>)
  {
    forall i :: 0 <= i < |toc| ==> !Reserved(wb, Mode(toc[i]))
  }

  /** The first k entries of toc, split after the first. */
  lemma PrefixCons(wb: bool, octetAlign: bool, toc: seq<bv8>, k: nat)
    requires 0 < k <= |toc|
    ensures OutBytes(wb, octetAlign, toc[..k]) == FrameBytes(wb, octetAlign, toc[0]) + OutBytes(wb, octetAlign, toc[1..][..k - 1])
    ensures TocBits(wb, octetAlign, toc[..k]) == FrameBits(wb, octetAlign, toc[0]) + TocBits(wb, octetAlign, toc[1..][..k - 1])
    ensures NoReserved(wb, toc[..k]) <==> !Reserved(wb, Mode(toc[0])) && NoReserved(wb, toc[1..][..k - 1])
  {
    var head, tail := toc[..k], toc[1..][..k - 1];
    assert head[0] == toc[0] && head[1..] == tail;
    if !Reserved(wb, Mode(toc[0])) && NoReserved(wb, tail) {
      forall i | 0 <= i < k ensures !Reserved(wb, Mode(head[i])) {
        if 0 < i {
          assert head[i] == tail[i - 1];
        }
      }
    }
    if NoReserved(wb, head) {
      forall i | 0 <= i < k - 1 ensures !Reserved(wb, Mode(tail[i])) {
        assert tail[i] == head[i + 1];
      }
    }
  }

  /** No entry of toc is reserved exactly when its first is not and no later one is. */
  lemma NoReservedCons(wb: bool, toc: seq<bv8>)
    requires 0 < |toc|
    ensures NoReserved(wb, toc) <==> !Reserved(wb, Mode(toc[0])) && NoReserved(wb, toc[1..])
  {
    if !Reserved(wb, Mode(toc[0])) && NoReserved(wb, toc[1..]) {
      forall i | 0 <= i < |toc| ensures !Reserved(wb, Mode(toc[i])) {
        if 0 < i {
          assert toc[i] == toc[1..][i - 1];
        }
      }
    }
  }

  /** The frame loop r from off over toc, with limit bits of data: it completes
      exactly when no entry is reserved and every payload fits, and it then
      writes every entry and its payload and reads every payload. */
  predicate CompletesAt(limit: nat, off: nat, toc: seq<bv8>, wb: bool, octetAlign: bool, r: Run)
  {
    && (r.status.Pass? <==> NoReserved(wb, toc) && off + TocBits(wb, octetAlign, toc) <= limit)
    && (r.status.Pass? ==> |r.out| == OutBytes(wb, octetAlign, toc) && r.offset == off + TocBits(wb, octetAlign, toc))
  }

  /** A frame that fails makes the whole loop fail, as the entries say it must. */
  lemma CompletesFirst(limit: nat, off: nat, toc: seq<bv8>, wb: bool, octetAlign: bool, f: Run)
    requires 0 < |toc| && f.status.Fail?
    requires Reserved(wb, Mode(toc[0])) || off + FrameBits(wb, octetAlign, toc[0]) > limit
    ensures CompletesAt(limit, off, toc, wb, octetAlign, f)
  {
    NoReservedCons(wb, toc);
  }

  /** A frame that completes, followed by a loop over the rest of the entries. */
  lemma CompletesCons(limit: nat, off: nat, toc: seq<bv8>, wb: bool, octetAlign: bool, f: Run, rest: Run)
    requires 0 < |toc| && !Reserved(wb, Mode(toc[0])) && f.status.Pass?
    requires |f.out| == FrameBytes(wb, octetAlign, toc[0]) && f.offset == off + FrameBits(wb, octetAlign, toc[0])
    requires CompletesAt(limit, f.offset, toc[1..], wb, octetAlign, rest)
    ensures CompletesAt(limit, off, toc, wb, octetAlign, Then(f.out, f.samples, rest))
  {
    NoReservedCons(wb, toc);
  }

  /** The frame loop completes exactly when no entry is reserved and every
      payload fits in the data; it then writes every entry and its payload and
      reads every payload. */
  lemma {:induction false} FramesPass(s: seq<bv8>, off: nat, toc: seq<bv8>, wb: bool, octetAlign: bool)
    requires off <= 8 * |s|
    ensures CompletesAt(8 * |s|, off, toc, wb, octetAlign, Frames(s, off, toc, wb, octetAlign))
    decreases |toc|
  {
    if 0 < |toc| {
      var f := Frame(s, off, toc[0], wb, octetAlign);
      FrameCases(s, off, toc[0], wb, octetAlign);
      if f.status.Pass? {
        var rest := Frames(s, f.offset, toc[1..], wb, octetAlign);
        FramesPass(s, f.offset, toc[1..], wb, octetAlign);
        CompletesCons(8 * |s|, off, toc, wb, octetAlign, f, rest);
      } else {
        CompletesFirst(8 * |s|, off, toc, wb, octetAlign, f);
      }
    }
  }

  /** The frame loop r from off over toc stops at a reserved frame type only at
      the first reserved entry, having written the complete frames before it. */
  predicate StopsAtReserved(off: nat, toc: seq<bv8>, wb: bool, octetAlign: bool, r: Run)
  {
    var k := r.samples;
    r.status.Fail? && r.status.error.InvalidMode? ==>
      && k < |toc| && r.status.error.mode == Mode(toc[k]) && Reserved(wb, Mode(toc[k]))
      && NoReserved(wb, toc[..k])
      && |r.out| == OutBytes(wb, octetAlign, toc[..k])
      && r.offset == off + TocBits(wb, octetAlign, toc[..k])
  }

  lemma StopsAtReservedFirst(off: nat, toc: seq<bv8>, wb: bool, octetAlign: bool, f: Run)
    requires 0 < |toc| && (f.status.Fail? && f.status.error.InvalidMode? ==> Reserved(wb, Mode(toc[0])) && f == Run([], 0, off, Fail(InvalidMode(Mode(toc[0])))))
    ensures StopsAtReserved(off, toc, wb, octetAlign, f)
  {
    assert toc[..0] == [];
  }

  lemma StopsAtReservedCons(off: nat, toc: seq<bv8>, wb: bool, octetAlign: bool, f: Run, rest: Run)
    requires 0 < |toc| && !Reserved(wb, Mode(toc[0])) && f.samples == 1
    requires |f.out| == FrameBytes(wb, octetAlign, toc[0]) && f.offset == off + FrameBits(wb, octetAlign, toc[0])
    requires StopsAtReserved(f.offset, toc[1..], wb, octetAlign, rest)
    ensures StopsAtReserved(off, toc, wb, octetAlign, Then(f.out, f.samples, rest))
  {
    if rest.status.Fail? && rest.status.error.InvalidMode? {
      var k := rest.samples + 1;
      PrefixCons(wb, octetAlign, toc, k);
      assert toc[k] == toc[1..][k - 1];
    }
  }

  /** The frame loop stops at a reserved frame type exactly at the first
      reserved entry, having written the complete frames before it. */
  lemma {:induction false} FramesInvalidMode(s: seq<bv8>, off: nat, toc: seq<bv8>, wb: bool, octetAlign: bool)
    requires off <= 8 * |s|
    ensures StopsAtReserved(off, toc, wb, octetAlign, Frames(s, off, toc, wb, octetAlign))
    decreases |toc|
  {
    if 0 < |toc| {
      var f := Frame(s, off, toc[0], wb, octetAlign);
      FrameCases(s, off, toc[0], wb, octetAlign);
      if f.status.Pass? {
        var rest := Frames(s, f.offset, toc[1..], wb, octetAlign);
        FramesInvalidMode(s, f.offset, toc[1..], wb, octetAlign);
        StopsAtReservedCons(off, toc, wb, octetAlign, f, rest);
      } else {
        StopsAtReservedFirst(off, toc, wb, octetAlign, f);
      }
    }
  }

  /** The frame loop r from off over toc, with limit bits of data, runs out of
      data only in the payload of its last counted entry, having written the
      complete frames before it and that entry. */
  predicate StopsInPayload(limit: nat, off: nat, toc: seq<bv8>, wb: bool, octetAlign: bool, r: Run)
  {
    var k := r.samples;
    r.status == Fail(IndexError) ==>
      && 0 < k <= |toc| && Mode(toc[k - 1]) <= NModes(wb)
      && NoReserved(wb, toc[..k])
      && |r.out| == OutBytes(wb, octetAlign, toc[..k - 1]) + 1
      && r.offset == off + TocBits(wb, octetAlign, toc[..k - 1])
      && r.offset + PayloadBits(wb, octetAlign, Mode(toc[k - 1])) > limit
  }

  lemma StopsInPayloadFirst(limit: nat, off: nat, toc: seq<bv8>, wb: bool, octetAlign: bool, f: Run)
    requires 0 < |toc|
    requires f.status == Fail(IndexError) ==>
               !Reserved(wb, Mode(toc[0])) && off + FrameBits(wb, octetAlign, toc[0]) > limit &&
               Mode(toc[0]) <= NModes(wb) && f == Run([toc[0]], 1, off, Fail(IndexError))
    ensures StopsInPayload(limit, off, toc, wb, octetAlign, f)
  {
    assert toc[..0] == [];
    assert toc[..1] == [toc[0]];
  }

  lemma StopsInPayloadCons(limit: nat, off: nat, toc: seq<bv8>, wb: bool, octetAlign: bool, f: Run, rest: Run)
    requires 0 < |toc| && !Reserved(wb, Mode(toc[0])) && f.samples == 1
    requires |f.out| == FrameBytes(wb, octetAlign, toc[0]) && f.offset == off + FrameBits(wb, octetAlign, toc[0])
    requires StopsInPayload(limit, f.offset, toc[1..], wb, octetAlign, rest)
    ensures StopsInPayload(limit, off, toc, wb, octetAlign, Then(f.out, f.samples, rest))
  {
    if rest.status == Fail(IndexError) {
      var k := rest.samples + 1;
      PrefixCons(wb, octetAlign, toc, k);
      PrefixCons(wb, octetAlign, toc, k - 1);
      assert toc[k - 1] == toc[1..][k - 2];
    }
  }

  /** The frame loop runs out of data exactly in the payload of its last
      counted entry, having written the complete frames before it and that entry. */
  lemma {:induction false} FramesIndexError(s: seq<bv8>, off: nat, toc: seq<bv8>, wb: bool, octetAlign: bool)
    requires off <= 8 * |s|
    ensures StopsInPayload(8 * |s|, off, toc, wb, octetAlign, Frames(s, off, toc, wb, octetAlign))
    decreases |toc|
  {
    if 0 < |toc| {
      var f := Frame(s, off, toc[0], wb, octetAlign);
      FrameCases(s, off, toc[0], wb, octetAlign);
      if f.status.Pass? {
        var rest := Frames(s, f.offset, toc[1..], wb, octetAlign);
        FramesIndexError(s, f.offset, toc[1..], wb, octetAlign);
        StopsInPayloadCons(8 * |s|, off, toc, wb, octetAlign, f, rest);
      } else {
        StopsInPayloadFirst(8 * |s|, off, toc, wb, octetAlign, f);
      }
    }
  }

  /** Trailing zero bits after the last superframe are read as headers until
      the data runs out, so processing then ends in IndexError without writing
      anything (amr.py:21-22, 132-138). */
  lemma ProcessTrailingZeros(s: seq<bv8>, off: nat, wb: bool, octetAlign: bool)
    requires off < 8 * |s| && ZeroField(StreamBits(s), off, 8 * |s| - off)
    ensures ProcessFrom(s, off, wb, octetAlign) == Run([], 0, off, Fail(IndexError))
  {
    SkipHeadersTrailingZeros(StreamBits(s), off, Round(octetAlign, 4));
  }

  /** The four base-256 digits of a number, most significant first. */
  lemma Digits(d0: nat, d1: nat, d2: nat, d3: nat)
    requires d0 < 0x100 && d1 < 0x100 && d2 < 0x100 && d3 < 0x100
    ensures var n := d0 * 0x100_0000 + d1 * 0x1_0000 + d2 * 0x100 + d3;
            n < 0x1_0000_0000 && n / 0x100_0000 == d0 && n / 0x1_0000 % 0x100 == d1 &&
            n / 0x100 % 0x100 == d2 && n % 0x100 == d3
  {
    var n := d0 * 0x100_0000 + d1 * 0x1_0000 + d2 * 0x100 + d3;
    assert n / 0x100 == d0 * 0x1_0000 + d1 * 0x100 + d2;
    assert n / 0x1_0000 == d0 * 0x100 + d1;
  }

  /** Be32 and FromBe32 are inverse: every 4-byte big-endian string is the
      encoding of the number it decodes to. */
  lemma FromBe32RoundTrip(b: seq<bv8>)
    requires |b| == 4
    ensures FromBe32(b) < 0x1_0000_0000 && Be32(FromBe32(b)) == b
  {
    Digits(b[0] as nat, b[1] as nat, b[2] as nat, b[3] as nat);
  }

  /** Small channel counts have distinct low bytes. */
  lemma SmallBytes(x: nat, y: nat)
    requires x <= 6 && y <= 6 && x as bv8 == y as bv8
    ensures x == y
  {
  }

  /** Different configurations give different magic: a file's magic names its
      codec and its channel count. */
  lemma MagicInjective(wb1: bool, n1: nat, wb2: bool, n2: nat)
    requires 1 <= n1 <= 6 && 1 <= n2 <= 6
    ensures Magic(wb1, n1) == Magic(wb2, n2) <==> wb1 == wb2 && n1 == n2
  {
    var m1, m2 := Magic(wb1, n1), Magic(wb2, n2);
    if m1 == m2 && n1 != 1 && n2 != 1 {
      assert m1[|m1| - 1] == n1 as bv8 && m2[|m2| - 1] == n2 as bv8;
      SmallBytes(n1, n2);
    }
  }
}
