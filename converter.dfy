/** AMR: the converter from a raw AMR / AMR-WB RTP payload stream to the AMR
    storage format (amr.py:107-167): the payload grammar of sections 4.3
    (bandwidth-efficient) and 4.4 (octet-aligned) of RFC 4867, and the file
    magic of section 5 of RFC 4867. */
module Converter {
  import opened Bits
  import opened Errors
  import opened Reader

  /** Speech bits per frame type 0..NModes, the last entry being the SID frame
      (amr.py:110-112, from 3GPP TS 26.101 for AMR and TS 26.201 for AMR-WB). */
  function SpeechBits(wb: bool): (r: seq<nat>)
    ensures |r| == (if wb then 10 else 9)
    ensures forall m :: 0 <= m < |r| ==> 0 < r[m]
  {
    if wb then [132, 177, 253, 285, 317, 365, 397, 461, 477, 40]
    else [95, 103, 118, 134, 148, 159, 204, 244, 39]
  }

  /** The highest frame type that carries a payload (amr.py:113): the SID
      frame, the last entry of SpeechBits. */
  function NModes(wb: bool): (r: nat)
    ensures r + 1 == |SpeechBits(wb)|
  {
    if wb then 9 else 8
  }

  /** The SID frame at NModes is shorter than every speech mode. */
  lemma SidShortest(wb: bool, m: nat)
    requires m < NModes(wb)
    ensures SpeechBits(wb)[NModes(wb)] < SpeechBits(wb)[m]
  {
  }

  /** The NO_DATA frame type (amr.py:114): above the payload modes with at
      least one reserved type between, and a 4-bit frame type. */
  function NoData(wb: bool): (r: nat)
    ensures NModes(wb) + 1 < r < 16
  {
    if wb then 14 else 15
  }

  /** A frame type that is neither a payload mode nor NO_DATA or above: the
      assertion at amr.py:147-148 rejects it. */
  predicate Reserved(wb: bool, mode: nat): (r: bool)
    ensures r <==> if wb then 10 <= mode <= 13 else 9 <= mode <= 14
  {
    NModes(wb) < mode < NoData(wb)
  }

  /** round (amr.py:125-129): n, or in octet-aligned mode the least multiple of 8
      that is at least n. */
  function Round(octetAlign: bool, n: nat): (r: nat)
    ensures !octetAlign ==> r == n
    ensures octetAlign ==> r % 8 == 0 && n <= r < n + 8
  {
    if octetAlign then (n + 7) / 8 * 8 else n
  }

  /** The frame type of a stored table-of-contents entry: t >> 3 (amr.py:145),
      the top five bits of the entry and nothing of its low three. */
  function Mode(t: bv8): (r: nat)
    ensures r < 32 && (r as bv8) << 3 == t & 0xF8
  {
    (t >> 3) as nat
  }

  /** The width in bits of the payload of a frame of type mode (amr.py:152-153):
      its speech bits, padded in octet-aligned mode to whole bytes. */
  function PayloadBits(wb: bool, octetAlign: bool, mode: nat): (r: nat)
    requires mode <= NModes(wb)
    ensures !octetAlign ==> r == SpeechBits(wb)[mode]
    ensures octetAlign ==> r % 8 == 0 && SpeechBits(wb)[mode] <= r < SpeechBits(wb)[mode] + 8
  {
    Round(octetAlign, SpeechBits(wb)[mode])
  }

  /** The w-bit field at bit offset off of a bit stream, left-justified in a byte. */
  function Field(bits: seq<bool>, off: nat, w: nat): bv8
    requires 0 < w <= 8 && off + w <= |bits|
  {
    FromBits(bits[off..off + w] + Zeros(8 - w))
  }

  /** Reading a field of 1..8 bits that fits gives the single byte Field. */
  lemma {:induction false} FieldRead(s: seq<bv8>, off: nat, w: nat)
    requires 0 < w <= 8 && off + w <= 8 * |s|
    ensures ReadBits(s, off, w) == Ok([Field(StreamBits(s), off, w)])
  {
    var end := off + w;
    var field := StreamBits(s)[off..end];
    ReadField(s, off, w, end, field);
    PackByte(field);
  }

  /** The w bits at bit offset off are all clear. */
  predicate ZeroField(bits: seq<bool>, off: nat, w: nat)
    requires off + w <= |bits|
  {
    forall j :: off <= j < off + w ==> !bits[j]
  }

  /** A field is the zero byte exactly when its bits are all clear. */
  lemma {:induction false} ZeroFieldValue(bits: seq<bool>, off: nat, w: nat)
    requires 0 < w <= 8 && off + w <= |bits|
    ensures Field(bits, off, w) == 0 <==> ZeroField(bits, off, w)
  {
    var c := bits[off..off + w] + Zeros(8 - w);
    FromBitsBits(c);
    if ZeroField(bits, off, w) {
      forall j | 0 <= j < 8 ensures !c[j] {
        if j < w {
          assert c[j] == bits[off + j];
        }
      }
      assert c == Zeros(8);
      FromBitsBits(Zeros(8));
      ByteBitsInjective(FromBits(c), 0);
    } else {
      var j :| off <= j < off + w && bits[j];
      assert c[j - off] == bits[j];
      assert ByteBits(FromBits(c))[j - off];
      ByteBitsAt(0, j - off);
    }
  }

  /** A header reads as the zero byte exactly when its bits are all clear. */
  lemma {:induction false} ZeroFieldRead(s: seq<bv8>, off: nat, w: nat)
    requires 0 < w <= 8 && off + w <= 8 * |s|
    ensures ReadBits(s, off, w) == Ok([0]) <==> ZeroField(StreamBits(s), off, w)
  {
    FieldRead(s, off, w);
    ZeroFieldValue(StreamBits(s), off, w);
  }

  /** The header loop (amr.py:136-138): reads w-bit headers while they read as
      zero; the bit offset just past the first non-zero header, or IndexError
      when the data ends first. */
  function SkipHeaders(bits: seq<bool>, off: nat, w: nat): (r: Result<nat>)
    requires 0 < w <= 8
    ensures r.Err? ==> r.error == IndexError
    ensures r.Ok? ==> off + w <= r.value <= |bits|
    decreases |bits| - off
  {
    if off + w > |bits| then Err(IndexError)
    else if ZeroField(bits, off, w) then SkipHeaders(bits, off + w, w)
    else Ok(off + w)
  }

  /** The table-of-contents loop (amr.py:139-143): w-bit entries are read up to
      and including the first whose F bit (0x80) is clear, and each is stored
      with the F bit and the two low bits cleared (t & 0x7C). The stored entries
      and the bit offset after them, or IndexError. */
  function ReadToc(bits: seq<bool>, off: nat, w: nat): (r: Result<(seq<bv8>, nat)>)
    requires 0 < w <= 8
    ensures r.Err? ==> r.error == IndexError
    ensures r.Ok? ==> 0 < |r.value.0| && off + w <= r.value.1 <= |bits|
    ensures r.Ok? ==> forall i :: 0 <= i < |r.value.0| ==> r.value.0[i] & 0x83 == 0
    decreases |bits| - off
  {
    if off + w > |bits| then Err(IndexError)
    else
      var t := Field(bits, off, w);
      if t & 0x80 == 0 then Ok(([t & 0x7C], off + w))
      else
        var rest := ReadToc(bits, off + w, w);
        if rest.Err? then rest else Ok(([t & 0x7C] + rest.value.0, rest.value.1))
  }

  /** What processing has written and read: the bytes written, the number of
      samples counted, the bit offset reached, and whether it ended normally. */
  datatype Run = Run(out: seq<bv8>, samples: nat, offset: nat, status: Outcome)

  /** out and samples followed by the run r. */
  function Then(out: seq<bv8>, samples: nat, r: Run): Run
  {
    Run(out + r.out, samples + r.samples, r.offset, r.status)
  }

  /** One pass of the frame loop (amr.py:145-154): a reserved frame type fails
      before anything is written; otherwise the entry is written and counted,
      and a payload mode's payload is read and written. */
  function Frame(s: seq<bv8>, off: nat, t: bv8, wb: bool, octetAlign: bool): (r: Run)
    requires off <= 8 * |s|
    ensures off <= r.offset <= 8 * |s| && r.samples <= 1
    ensures r.status.Pass? ==> r.samples == 1
  {
    var mode := Mode(t);
    if Reserved(wb, mode) then Run([], 0, off, Fail(InvalidMode(mode)))
    else if mode > NModes(wb) then Run([t], 1, off, Pass)
    else
      var n := PayloadBits(wb, octetAlign, mode);
      var p := ReadBits(s, off, n);
      if p.Err? then Run([t], 1, off, Fail(IndexError))
      else Run([t] + p.value, 1, off + n, Pass)
  }

  /** The frame loop (amr.py:144-154): the entries in order, up to the first failure. */
  function Frames(s: seq<bv8>, off: nat, toc: seq<bv8>, wb: bool, octetAlign: bool): (r: Run)
    requires off <= 8 * |s|
    ensures off <= r.offset <= 8 * |s| && r.samples <= |toc|
    ensures r.status.Pass? ==> r.samples == |toc|
    decreases |toc|
  {
    if |toc| == 0 then Run([], 0, off, Pass)
    else
      var f := Frame(s, off, toc[0], wb, octetAlign);
      if f.status.Fail? then f
      else Then(f.out, f.samples, Frames(s, f.offset, toc[1..], wb, octetAlign))
  }

  /** One superframe (amr.py:134-155): headers, table of contents, frames, then
      alignment of the reader to the next byte. */
  function Superframe(s: seq<bv8>, off: nat, wb: bool, octetAlign: bool): (r: Run)
    requires off <= 8 * |s|
    ensures off <= r.offset <= 8 * |s|
    ensures r.status.Pass? ==> off < r.offset && r.offset % 8 == 0
  {
    var h := SkipHeaders(StreamBits(s), off, Round(octetAlign, 4));
    if h.Err? then Run([], 0, off, Fail(IndexError))
    else
      var toc := ReadToc(StreamBits(s), h.value, Round(octetAlign, 6));
      if toc.Err? then Run([], 0, off, Fail(IndexError))
      else
        var f := Frames(s, toc.value.1, toc.value.0, wb, octetAlign);
        if f.status.Fail? then f
        else
          AlignUpBounded(f.offset, |s|);
          Run(f.out, f.samples, AlignUp(f.offset), Pass)
  }

  /** process from bit offset off (amr.py:131-155): superframes while any bit
      is left. */
  function ProcessFrom(s: seq<bv8>, off: nat, wb: bool, octetAlign: bool): (r: Run)
    requires off <= 8 * |s|
    ensures off <= r.offset <= 8 * |s|
    ensures r.status.Pass? ==> r.offset == 8 * |s|
    decreases 8 * |s| - off
  {
    if off == 8 * |s| then Run([], 0, off, Pass)
    else
      var sf := Superframe(s, off, wb, octetAlign);
      if sf.status.Fail? then sf
      else Then(sf.out, sf.samples, ProcessFrom(s, sf.offset, wb, octetAlign))
  }

  /** Stored entries p followed by the entries of t. */
  function Prefixed(p: seq<bv8>, t: Result<(seq<bv8>, nat)>): Result<(seq<bv8>, nat)>
  {
    if t.Err? then t else Ok((p + t.value.0, t.value.1))
  }

  /** n as a 4-byte big-endian unsigned integer: struct.pack(">I", n). */
  function Be32(n: nat): (r: seq<bv8>)
    requires n < 0x1_0000_0000
    ensures |r| == 4
  {
    [(n / 0x100_0000) as bv8, (n / 0x1_0000 % 0x100) as bv8, (n / 0x100 % 0x100) as bv8, (n % 0x100) as bv8]
  }

  /** The unsigned integer a 4-byte big-endian string encodes. */
  function FromBe32(b: seq<bv8>): nat
    requires |b| == 4
  {
    b[0] as nat * 0x100_0000 + b[1] as nat * 0x1_0000 + b[2] as nat * 0x100 + b[3] as nat
  }

  /** The four file magics of section 5 of RFC 4867, as bytes: "#!AMR\n",
      "#!AMR-WB\n", "#!AMR_MC1.0\n" and "#!AMR-WB_MC1.0\n" (amr.py:163-166). */
  const AmrMagic: seq<bv8> := [0x23, 0x21, 0x41, 0x4D, 0x52, 0x0A]
  const AmrWbMagic: seq<bv8> := [0x23, 0x21, 0x41, 0x4D, 0x52, 0x2D, 0x57, 0x42, 0x0A]
  const AmrMcMagic: seq<bv8> := [0x23, 0x21, 0x41, 0x4D, 0x52, 0x5F, 0x4D, 0x43, 0x31, 0x2E, 0x30, 0x0A]
  const AmrWbMcMagic: seq<bv8> :=
    [0x23, 0x21, 0x41, 0x4D, 0x52, 0x2D, 0x57, 0x42, 0x5F, 0x4D, 0x43, 0x31, 0x2E, 0x30, 0x0A]

  /** The file magic (amr.py:163-167, section 5 of RFC 4867): the single-channel
      magic for one channel, else the multi-channel magic followed by the channel
      count as a 32-bit big-endian integer. Every magic starts with "#!AMR", names
      AMR-WB by a '-' right after it, and ends its text with a line feed. */
  function Magic(wb: bool, nChan: nat): (r: seq<bv8>)
    requires 1 <= nChan <= 6
    ensures |r| == (if nChan == 1 then 0 else 10) + (if wb then 9 else 6)
    ensures r[..5] == AmrMagic[..5] && (r[5] == 0x2D <==> wb)
    ensures r[|r| - 1 - (if nChan == 1 then 0 else 4)] == 0x0A
    ensures nChan > 1 ==> r[|r| - 4..] == Be32(nChan)
  {
    if nChan == 1 then (if wb then AmrWbMagic else AmrMagic)
    else (if wb then AmrWbMcMagic else AmrMcMagic) + Be32(nChan)
  }

  lemma PrefixedEmpty(t: Result<(seq<bv8>, nat)>)
    ensures Prefixed([], t) == t
  {
    if t.Ok? {
      assert [] + t.value.0 == t.value.0;
    }
  }

  lemma PrefixedAppend(p: seq<bv8>, e: bv8, t: Result<(seq<bv8>, nat)>)
    ensures Prefixed(p, Prefixed([e], t)) == Prefixed(p + [e], t)
  {
    if t.Ok? {
      assert p + ([e] + t.value.0) == p + [e] + t.value.0;
    }
  }

  /** One pass of the header loop, in terms of the read it makes: when the
      headers from start lead to those from off, reading the header at off
      either fails, as skipping from start does, or tells where skipping ends. */
  lemma HeaderStep(s: seq<bv8>, start: nat, off: nat, w: nat, header: Result<seq<bv8>>)
    requires 0 < w <= 8 && header == ReadBits(s, off, w)
    requires SkipHeaders(StreamBits(s), start, w) == SkipHeaders(StreamBits(s), off, w)
    ensures header.Err? ==> SkipHeaders(StreamBits(s), start, w) == Err(IndexError)
    ensures header.Ok? ==> SkipHeaders(StreamBits(s), start, w) ==
                           (if header.value == [0] then SkipHeaders(StreamBits(s), off + w, w) else Ok(off + w))
  {
    if header.Ok? {
      ZeroFieldRead(s, off, w);
    }
  }

  /** One pass of the table-of-contents loop, in terms of the read it makes. */
  lemma TocStep(s: seq<bv8>, off: nat, w: nat, field: Result<seq<bv8>>)
    requires 0 < w <= 8 && field == ReadBits(s, off, w)
    ensures field.Err? ==> ReadToc(StreamBits(s), off, w) == Err(IndexError)
    ensures field.Ok? ==> |field.value| == 1 && off + w <= 8 * |s|
    ensures field.Ok? ==> ReadToc(StreamBits(s), off, w) ==
                          (if field.value[0] & 0x80 == 0 then Ok(([field.value[0] & 0x7C], off + w))
                           else Prefixed([field.value[0] & 0x7C], ReadToc(StreamBits(s), off + w, w)))
  {
    if field.Ok? {
      FieldRead(s, off, w);
    }
  }

  lemma ThenThen(o1: seq<bv8>, n1: nat, o2: seq<bv8>, n2: nat, r: Run)
    ensures Then(o1, n1, Then(o2, n2, r)) == Then(o1 + o2, n1 + n2, r)
  {
    assert o1 + (o2 + r.out) == o1 + o2 + r.out;
  }

  /** One pass of the frame loop, from entry i on. */
  lemma FramesStep(s: seq<bv8>, off: nat, toc: seq<bv8>, i: nat, wb: bool, octetAlign: bool, f: Run)
    requires off <= 8 * |s| && i < |toc| && f == Frame(s, off, toc[i], wb, octetAlign)
    ensures Frames(s, off, toc[i..], wb, octetAlign) ==
            if f.status.Fail? then f else Then(f.out, f.samples, Frames(s, f.offset, toc[i + 1..], wb, octetAlign))
  {
    assert toc[i..][0] == toc[i] && toc[i..][1..] == toc[i + 1..];
  }

  /** One pass of the superframe loop. */
  lemma ProcessStep(s: seq<bv8>, off: nat, wb: bool, octetAlign: bool, sf: Run)
    requires off < 8 * |s| && sf == Superframe(s, off, wb, octetAlign)
    ensures ProcessFrom(s, off, wb, octetAlign) ==
            if sf.status.Fail? then sf else Then(sf.out, sf.samples, ProcessFrom(s, sf.offset, wb, octetAlign))
  {
  }

  /** The superframe loop's invariant is kept by one pass: T is what the whole
      run writes and counts, out and n what has been written and counted so far. */
  lemma ProcessAdvance(s: seq<bv8>, off: nat, wb: bool, octetAlign: bool, out: seq<bv8>, n: nat, T: Run, sf: Run)
    requires off < 8 * |s| && sf == Superframe(s, off, wb, octetAlign)
    requires Then(out, n, ProcessFrom(s, off, wb, octetAlign)) == T
    ensures sf.status.Fail? ==> out + sf.out == T.out && n + sf.samples == T.samples && sf.status == T.status
    ensures sf.status.Pass? ==> Then(out + sf.out, n + sf.samples, ProcessFrom(s, sf.offset, wb, octetAlign)) == T
  {
    ProcessStep(s, off, wb, octetAlign, sf);
    if sf.status.Pass? {
      ThenThen(out, n, sf.out, sf.samples, ProcessFrom(s, sf.offset, wb, octetAlign));
    }
  }

  /** At the end of the data the superframe loop has written and counted all. */
  lemma ProcessDone(s: seq<bv8>, wb: bool, octetAlign: bool, out: seq<bv8>, n: nat, T: Run)
    requires Then(out, n, ProcessFrom(s, 8 * |s|, wb, octetAlign)) == T
    ensures out == T.out && n == T.samples && T.status == Pass
  {
    assert out + [] == out;
  }

  /** The converter (amr.py:107-155): its configuration, the bytes written to the
      output file, and the number of frames written. */
  class Amr {
    /** AMR-WB rather than AMR. */
    const wb: bool
    /** Octet-aligned rather than bandwidth-efficient payloads. */
    const octetAlign: bool
    const nChan: nat
    /** What has been written to the output file. */
    var output: seq<bv8>
    /** The number of table-of-contents entries written. */
    var sample: nat

    constructor (wb: bool, octetAlign: bool, nChan: nat)
      requires 1 <= nChan <= 6
      ensures this.wb == wb && this.octetAlign == octetAlign && this.nChan == nChan
      ensures output == [] && sample == 0
    {
      this.wb := wb;
      this.octetAlign := octetAlign;
      this.nChan := nChan;
      output := [];
      sample := 0;
    }

    /** __init__ (amr.py:116-123): the channel count must lie in 1..6. */
    static method Create(wb: bool, octetAlign: bool, nChan: int) returns (r: Result<Amr>)
      ensures r.Err? <==> !(1 <= nChan <= 6)
      ensures r.Err? ==> r.error == WrongChannelCount
      ensures r.Ok? ==> fresh(r.value) && r.value.wb == wb && r.value.octetAlign == octetAlign
      ensures r.Ok? ==> r.value.nChan == nChan && r.value.output == [] && r.value.sample == 0
    {
      if !(1 <= nChan <= 6) {
        return Err(WrongChannelCount);
      }
      var a := new Amr(wb, octetAlign, nChan);
      return Ok(a);
    }

    /** openOutput (amr.py:161-169): the output file starts with the magic. */
    method OpenOutput()
      requires 1 <= nChan <= 6
      modifies this`output
      ensures output == Magic(wb, nChan)
    {
      output := Magic(wb, nChan);
    }

    /** One read of the header loop (amr.py:135 and 138), in terms of where
        skipping from start ends. */
    method ReadHeader(b: BitIterator, w: nat, ghost start: nat) returns (header: Result<seq<bv8>>)
      requires b.Valid() && 0 < w <= 8
      requires SkipHeaders(StreamBits(b.input), start, w) == SkipHeaders(StreamBits(b.input), b.offset, w)
      modifies b`offset
      ensures b.Valid()
      ensures header.Err? ==> SkipHeaders(StreamBits(b.input), start, w) == Err(IndexError)
      ensures header.Ok? ==> b.offset == old(b.offset) + w && SkipHeaders(StreamBits(b.input), start, w) ==
                             (if header.value == [0] then SkipHeaders(StreamBits(b.input), b.offset, w) else Ok(b.offset))
    {
      ghost var o := b.offset;
      header := b.Read(w);
      HeaderStep(b.input, start, o, w, header);
    }

    /** The header loop (amr.py:135-138). */
    method SkipZeroHeaders(b: BitIterator) returns (r: Outcome)
      requires b.Valid()
      modifies b`offset
      ensures b.Valid()
      ensures var h := SkipHeaders(StreamBits(b.input), old(b.offset), Round(octetAlign, 4));
              (r.Pass? <==> h.Ok?) && (r.Fail? ==> r.error == IndexError) && (h.Ok? ==> b.offset == h.value)
    {
      var w := Round(octetAlign, 4);
      ghost var start := b.offset;
      var header := ReadHeader(b, w, start);
      if header.Err? {
        return Fail(IndexError);
      }
      while header.value == [0]
        invariant b.Valid() && header.Ok?
        invariant SkipHeaders(StreamBits(b.input), start, w) ==
                  if header.value == [0] then SkipHeaders(StreamBits(b.input), b.offset, w) else Ok(b.offset)
        decreases 8 * |b.input| - b.offset
      {
        header := ReadHeader(b, w, start);
        if header.Err? {
          return Fail(IndexError);
        }
      }
      return Pass;
    }

    /** The table-of-contents loop (amr.py:139-143). */
    method ReadTocEntries(b: BitIterator) returns (toc: seq<bv8>, r: Outcome)
      requires b.Valid()
      modifies b`offset
      ensures b.Valid()
      ensures var t := ReadToc(StreamBits(b.input), old(b.offset), Round(octetAlign, 6));
              (r.Pass? <==> t.Ok?) && (r.Fail? ==> r.error == IndexError) && (t.Ok? ==> toc == t.value.0 && b.offset == t.value.1)
    {
      var w := Round(octetAlign, 6);
      ghost var start := b.offset;
      toc := [];
      PrefixedEmpty(ReadToc(StreamBits(b.input), start, w));
      while true
        invariant b.Valid()
        invariant ReadToc(StreamBits(b.input), start, w) == Prefixed(toc, ReadToc(StreamBits(b.input), b.offset, w))
        decreases 8 * |b.input| - b.offset
      {
        ghost var o := b.offset;
        var field := b.Read(w);
        TocStep(b.input, o, w, field);
        if field.Err? {
          return toc, Fail(IndexError);
        }
        var t := field.value[0];
        PrefixedAppend(toc, t & 0x7C, ReadToc(StreamBits(b.input), b.offset, w));
        toc := toc + [t & 0x7C];
        if t & 0x80 == 0 {
          break;
        }
      }
      return toc, Pass;
    }

    /** The payload of a payload-mode frame (amr.py:151-153): n bits are read
        and written, or IndexError when they run past the data. */
    method WritePayload(b: BitIterator, n: nat) returns (r: Outcome)
      requires b.Valid()
      modifies b`offset, this`output
      ensures b.Valid()
      ensures var p := ReadBits(b.input, old(b.offset), n);
              r == (if p.Ok? then Pass else Fail(IndexError)) &&
              output == old(output) + (if p.Ok? then p.value else []) &&
              b.offset == old(b.offset) + (if p.Ok? then n else 0)
    {
      var speech := b.Read(n);
      if speech.Err? {
        assert output + [] == output;
        return Fail(IndexError);
      }
      output := output + speech.value;
      return Pass;
    }

    /** One pass of the frame loop (amr.py:145-154). */
    method WriteFrame(b: BitIterator, t: bv8) returns (r: Outcome)
      requires b.Valid()
      modifies b`offset, this`output, this`sample
      ensures b.Valid()
      ensures Run(output, sample, b.offset, r) == Then(old(output), old(sample), Frame(b.input, old(b.offset), t, wb, octetAlign))
    {
      var mode := Mode(t);
      ghost var before := output;
      if Reserved(wb, mode) {
        r := Fail(InvalidMode(mode));
        assert output == before + [];
      } else {
        output := output + [t];
        sample := sample + 1;
        if mode <= NModes(wb) {
          var n := PayloadBits(wb, octetAlign, mode);
          ghost var p := ReadBits(b.input, b.offset, n);
          r := WritePayload(b, n);
          assert output == before + ([t] + if p.Ok? then p.value else []);
        } else {
          r := Pass;
        }
      }
    }

    /** The frame loop (amr.py:144-154). */
    method WriteFrames(b: BitIterator, toc: seq<bv8>) returns (r: Outcome)
      requires b.Valid()
      modifies b`offset, this`output, this`sample
      ensures b.Valid()
      ensures var f := Frames(b.input, old(b.offset), toc, wb, octetAlign);
              output == old(output) + f.out && sample == old(sample) + f.samples && r == f.status &&
              (r.Pass? ==> b.offset == f.offset)
    {
      for i := 0 to |toc|
        invariant b.Valid()
        invariant Then(output, sample, Frames(b.input, b.offset, toc[i..], wb, octetAlign)) ==
                  Then(old(output), old(sample), Frames(b.input, old(b.offset), toc, wb, octetAlign))
      {
        ghost var o, out, n := b.offset, output, sample;
        r := WriteFrame(b, toc[i]);
        ghost var f := Frame(b.input, o, toc[i], wb, octetAlign);
        FramesStep(b.input, o, toc, i, wb, octetAlign, f);
        if r.Fail? {
          return r;
        }
        ThenThen(out, n, f.out, f.samples, Frames(b.input, b.offset, toc[i + 1..], wb, octetAlign));
      }
      return Pass;
    }

    /** One pass of the superframe loop (amr.py:133-155). */
    method ProcessSuperframe(b: BitIterator) returns (r: Outcome)
      requires b.Valid()
      modifies b`offset, this`output, this`sample
      ensures b.Valid()
      ensures var sf := Superframe(b.input, old(b.offset), wb, octetAlign);
              output == old(output) + sf.out && sample == old(sample) + sf.samples && r == sf.status &&
              (r.Pass? ==> b.offset == sf.offset)
    {
      var h := SkipZeroHeaders(b);
      if h.Fail? {
        return h;
      }
      var toc, t := ReadTocEntries(b);
      if t.Fail? {
        return t;
      }
      r := WriteFrames(b, toc);
      if r.Fail? {
        return r;
      }
      b.ByteAlign();
    }

    /** process (amr.py:131-155): converts data, appending to the output and
        counting the frames written, up to the first failure. */
    method Process(data: seq<bv8>) returns (r: Outcome)
      modifies this`output, this`sample
      ensures var run := ProcessFrom(data, 0, wb, octetAlign);
              output == old(output) + run.out && sample == old(sample) + run.samples && r == run.status
    {
      var b := new BitIterator(data);
      ghost var total := Then(output, sample, ProcessFrom(data, 0, wb, octetAlign));
      while b.NotEnd()
        invariant b.Valid() && b.input == data
        invariant Then(output, sample, ProcessFrom(data, b.offset, wb, octetAlign)) == total
        decreases 8 * |data| - b.offset
      {
        ghost var o, out, n := b.offset, output, sample;
        r := ProcessSuperframe(b);
        ProcessAdvance(data, o, wb, octetAlign, out, n, total, Superframe(data, o, wb, octetAlign));
        if r.Fail? {
          return r;
        }
      }
      ProcessDone(data, wb, octetAlign, output, sample, total);
      return Pass;
    }
  }
}
