# amr: raw AMR RTP payloads to the AMR storage format

`amr.py` converts a raw stream of AMR or AMR-WB RTP payloads into the `.amr`
storage format. It follows sections 4.3 (bandwidth-efficient) and 4.4
(octet-aligned) of RFC 4867 for the payload, and section 5 of RFC 4867 for the
file magic. The program runs under Python 2, so a string is a byte string. It
has three parts, and this project models each of them:

- **BitIterator** (`reader.dfy`, module `Reader`) is an MSB-first cursor that
  reads n-bit fields out of a byte string. The class keeps the source's `data`
  (input plus a zero stop mark) and `offset`. The specification is
  `ReadBits`: the field's bits, packed into bytes whose padding is zero, or
  `IndexError`.
- **BitMerger** (`merger.dfy`, module `Merger`) appends bit fragments to one
  bit string. The class keeps `offset`, `complete` and `lastVal`. The
  specification is `PutBits`, over the merged bit string. `fragments.dfy` and
  `vectors.dfy` model the unit tests, that is the merge-then-read-back round
  trip and its five test vectors.
- **AMR** (`converter.dfy`, module `Converter`) is the converter. The class
  keeps the configuration, the bytes written to the output file and the frame
  count. Each of its loops is a method proved against a recursive function:
  - `SkipHeaders` for the header loop;
  - `ReadToc` for the table of contents;
  - `Frame` and `Frames` for the frame loop;
  - `Superframe` and `ProcessFrom` for the outer loop.

  `laws.dfy` (module `ConverterLaws`) proves what these functions mean.

Shared pieces:
- `bits.dfy` (module `Bits`) holds the bit view of bytes: `ByteBits`,
  `StreamBits`, `Pack`, and Python's byte shifts as `Shl` and `Shr`.
- `errors.dfy` holds the error kinds and the `Result` and `Outcome` types.

Python exceptions become values:
- `IndexError`, raised by `read` and by `list.pop`, becomes `IndexError`.
- The failed `assert` on a reserved frame type becomes `InvalidMode(mode)`.
- The failed `nCHAN` assertion becomes `WrongChannelCount`.

Bits are numbered from the most significant bit of the first byte.

## Model

| member | source | states |
|---|---|---|
| Reader.ReadBits | amr.py:20-40 | A read fails, with IndexError, exactly when n is negative or the field runs past the input (the stop mark is not readable). A read that succeeds returns (n + 7) / 8 bytes. |
| Reader.ReadBitsBits | amr.py:20-40 | The bytes a successful read returns hold exactly the n field bits from the offset, then zero bits up to the byte boundary. |
| Reader.AlignedRead | amr.py:20-40 | A read that starts and ends on byte boundaries returns exactly those input bytes. |
| Reader.ReadPacked | amr.py:20-40 | Reading part of a packed bit string returns exactly that part, packed: reading undoes the packing that merging does. |
| Reader.EmptyRead | amr.py:23-24 | A zero-bit read succeeds with no bytes wherever the cursor is. |
| Reader.ShiftedWindow | amr.py:30-33 | The byte assembled from two neighbouring bytes holds the eight stream bits that start sh bits into the first byte. |
| Reader.AlignUp | amr.py:42-44 | byte_align moves to the least multiple of 8 that is at least the offset. |
| Reader.AlignUpIdempotent | amr.py:42-44 | Aligning twice is the same as aligning once. |
| Reader.AlignUpBounded | amr.py:42-44 | Aligning never moves past the end of the data. |
| Reader.BitIterator.constructor | amr.py:16-18 | The data is the input plus a zero stop mark, and the offset is 0. |
| Reader.BitIterator.Gather | amr.py:28-34 | The loop of read returns count bytes whose bits are the stream bits from the start offset. |
| Reader.BitIterator.Read | amr.py:20-40 | read returns ReadBits of the input at the old offset. It advances by n on success and moves nothing on failure. |
| Reader.BitIterator.ByteAlign | amr.py:42-44 | The new offset is AlignUp of the old one. |
| Reader.BitIterator.NotEnd | amr.py:46-47 | notEnd holds exactly when a bit of the input is left, which is exactly when a one-bit read succeeds. |
| Bits.ShiftedPairBits | amr.py:30-33 | x shifted left by sh within a byte, or-ed with y shifted right by 8 - sh, holds bits sh..sh + 8 of x and y side by side. |
| Bits.MaskValue | amr.py:37-38 | For nb in 1..7, the source's mask 0x100 - (1 << nb) equals (0xFF << nb) & 0xFF, the form the model uses. |
| Bits.MaskedBits | amr.py:36-39 | Masking with (0xFF << nb) & 0xFF keeps the first 8 - nb bits and clears the rest. By MaskValue this is the source's mask 0x100 - (1 << nb). |
| Bits.JoinBits | amr.py:84 | lastVal or-ed with x shifted right by offset puts the first 8 - offset bits of x after the offset bits of lastVal. |
| Bits.ShlBits | amr.py:85 | (x << k) & 0xFF drops the first k bits of x and fills in k zero bits. |
| Bits.PackBits | amr.py:93-96 | Packing bits into bytes only adds zero padding: unpacking gives the bits back. |
| Bits.PackUnique | amr.py:93-96 | The only bytes that hold exactly the bits followed by zero padding are their packing. |
| Bits.PackUnpack | amr.py:93-96 | Packing the bits of a byte string gives that byte string back. |
| Merger.Kept | amr.py:86-88 | As written, put keeps all bitlen bits, except that a positive multiple of 8 after a partial byte keeps 8 fewer. |
| Merger.FitsFragmentBytes | amr.py:75-77 | put accepts bitlen for data exactly when data is (bitlen + 7) // 8 bytes long, the bytes bitlen bits need. |
| Merger.PutBits | amr.py:73-91 | put fails with IndexError exactly when data cannot hold bitlen bits, or when a negative bitlen erases more bits than exist. Otherwise the result is a prefix of the old bits followed by the data bits. |
| Merger.PutAppends | amr.py:80-91 | put appends exactly the first bitlen bits of data, unless it is a whole-byte fragment after a partial byte. |
| Merger.PutLosesLastByte | amr.py:86-88 | A whole-byte fragment put after a partial byte appends all but its last 8 bits. |
| Merger.PutErases | amr.py:75-91 | A negative width, which only empty data can have, erases that many bits. It raises IndexError when fewer bits exist. |
| Merger.PutNothing | amr.py:78-79 | A zero-width put changes nothing. |
| Merger.PutBitsCorrected | amr.py:73-91 | The corrected put fails, with IndexError, exactly where put as written does. Otherwise it keeps a prefix of the old bits followed by the data bits. |
| Merger.PutCorrectedAppends | amr.py:80-91 | The corrected put appends exactly the first bitlen bits of every fragment. |
| Merger.PackedState | amr.py:93-96 | result's bytes are the packed merged bits: lastVal is added exactly when offset > 0. |
| Merger.BitMerger.constructor | amr.py:65-68 | A new merger holds no bits and keeps its invariant. |
| Merger.BitMerger.BitLen | amr.py:70-71 | bitlen is the number of merged bits. |
| Merger.BitMerger.Output | amr.py:93-97 | result returns the merged bits packed into bytes, with the last byte zero-padded, together with their number. |
| Merger.BitMerger.MergeByte | amr.py:81-85 | One pass of the byte loop appends the 8 bits of x and keeps offset and the clear tail of lastVal. |
| Merger.BitMerger.MergeBytes | amr.py:80-85 | The byte loop appends all bits of data. |
| Merger.BitMerger.PopLast | amr.py:87-88 | The last complete byte moves into lastVal. |
| Merger.BitMerger.MaskTo | amr.py:89-91 | offset becomes o2, lastVal keeps its first o2 bits and the rest are cleared. |
| Merger.BitMerger.Settle | amr.py:86-91 | The tail of put truncates the bits to the settled length. The pop fails with IndexError, changing nothing, exactly when complete is empty. |
| Merger.BitMerger.Put | amr.py:73-91 | The merged bits become PutBits of the old bits, as written. On failure nothing changes. |
| Merger.BitMerger.SettleCorrected | amr.py:86-91 | The corrected tail pops only when the fragment ends inside a byte. |
| Merger.BitMerger.PutCorrected | amr.py:73-91 | The merged bits become PutBitsCorrected of the old bits. |
| Fragments.Merge | amr.py:183-186 | Putting fragments one after the other fails only with IndexError. |
| Fragments.MergeConcat | amr.py:183-186 | Merging gives the kept bits of all fragments in order: always with the corrected put, and as written when no fragment loses its last byte. |
| Fragments.ConcatSlice | amr.py:184-187 | Each fragment sits in the merged bits at the total width of the fragments before it. |
| Fragments.FreshPut | amr.py:188-189 | A fresh merger holds exactly the kept bits of the one fragment put into it. |
| Fragments.RoundTrip | amr.py:182-191 | Reading fragment i back at the total width of the earlier fragments returns what a fresh merger holding only fragment i returns. |
| Vectors.Template | amr.py:182-191 | The test template passes whenever the expected bytes hold the fragments' kept bits, zero-padded, and no fragment is lost. |
| Vectors.Test1 | amr.py:193-198 | (AA, 8) then (55, 8) merges to (AA55, 16), and each fragment reads back. |
| Vectors.Test2 | amr.py:200-205 | (AA, 8) then (55, 6) merges to (AA54, 14). |
| Vectors.Test3 | amr.py:207-212 | (AA, 3) then (55, 4) merges to (AA, 7). |
| Vectors.Test4 | amr.py:214-219 | (AA, 3) then (5B, 5) merges to (AB, 8). |
| Vectors.Test5 | amr.py:221-226 | (AA, 6) then (5B, 7) merges to (A968, 13). |
| Vectors.LostByteWitness | amr.py:86-88 | After (AA, 3), putting (55, 8) leaves the merged bits unchanged. The template with (AAA0, 11) fails as written and passes with the corrected put. |
| Converter.SpeechBits | amr.py:110-112 | There is one positive speech-bit count per frame type 0..NMODES. |
| Converter.Round | amr.py:125-129 | round is the identity when not octet-aligned. Otherwise it gives the least multiple of 8 that is at least n. |
| Converter.NModes | amr.py:113 | NMODES is the last frame type with a payload: the SID frame, the last speech-bit entry. |
| Converter.SidShortest | amr.py:110-113 | The SID frame at NMODES is shorter than every speech mode. |
| Converter.NoData | amr.py:114 | NODATA lies above NMODES with at least one reserved frame type between them, and fits the 4-bit frame type. |
| Converter.Reserved | amr.py:147-148 | The assertion rejects exactly frame types 9..14 for AMR and 10..13 for AMR-WB. |
| Converter.PayloadBits | amr.py:152-153 | A payload is read with its speech-bit count, rounded up to whole bytes in octet-aligned mode. |
| Converter.Mode | amr.py:146 | The frame type t >> 3 holds exactly the top five bits of the entry. |
| Converter.FieldRead | amr.py:135-141 | Reading a 1..8-bit field gives the single byte holding that field, left-justified. |
| Converter.ZeroFieldValue | amr.py:137 | A field is the zero byte exactly when all its bits are clear. |
| Converter.ZeroFieldRead | amr.py:135-138 | A header read compares equal to '\0' exactly when its bits are all clear. |
| ConverterLaws.StoredMode | amr.py:142-148 | A stored entry t & 0x7C has a frame type below 16, the low four bits of the read one. If it passes the reserved check, it carries a payload or is NODATA or above. |
| Converter.SkipHeaders | amr.py:135-138 | The header loop ends past a header, inside the data, or fails with IndexError. |
| Converter.ReadToc | amr.py:139-143 | The table of contents is non-empty, ends inside the data, and every stored entry has the F and R bits (0x83) clear. Otherwise it fails with IndexError. |
| Converter.Frame | amr.py:145-154 | One frame counts at most one sample, and exactly one when it succeeds. It never reads past the data. |
| Converter.Frames | amr.py:144-154 | The frame loop counts at most one sample per entry, and one per entry when it completes. |
| Converter.Superframe | amr.py:133-155 | A completed superframe moves forward to a byte boundary inside the data. |
| Converter.ProcessFrom | amr.py:131-155 | A completed run ends at the end of the data. |
| Converter.HeaderStep | amr.py:135-138 | One header read either fails as the whole header loop does, or tells where the loop ends. |
| Converter.TocStep | amr.py:140-143 | One entry read either fails as the whole table does, or ends it or extends it by the masked entry. |
| Converter.FramesStep | amr.py:145-154 | One pass of the frame loop is the first frame followed by the loop over the rest. |
| Converter.ProcessAdvance | amr.py:134-155 | One pass of the superframe loop keeps what the whole run writes and counts. |
| Converter.ProcessDone | amr.py:134 | At the end of the data, everything has been written and counted. |
| Converter.Amr.Create | amr.py:116-123 | __init__ fails, with WrongChannelCount, exactly when nCHAN is outside 1..6. A new converter has written and counted nothing. |
| Converter.Amr.constructor | amr.py:116-123 | The configuration is stored, with empty output and a zero sample count. |
| Converter.Amr.OpenOutput | amr.py:161-169 | The output starts with the file magic. |
| Converter.Amr.ReadHeader | amr.py:135-138 | One header read advances by the header width and keeps the header loop's invariant. |
| Converter.Amr.SkipZeroHeaders | amr.py:135-138 | The header loop succeeds exactly when SkipHeaders does, and leaves the cursor where it ends. |
| Converter.Amr.ReadTocEntries | amr.py:139-143 | The loop's entries and end offset are those of ReadToc. It fails exactly when ReadToc does. |
| Converter.Amr.WritePayload | amr.py:151-154 | The payload read is appended to the output, or the frame fails with IndexError. |
| Converter.Amr.WriteFrame | amr.py:145-154 | Output, sample count, offset and outcome follow Frame. |
| Converter.Amr.WriteFrames | amr.py:144-154 | Output, sample count and outcome follow Frames. |
| Converter.Amr.ProcessSuperframe | amr.py:134-155 | Output, sample count and outcome follow Superframe. |
| Converter.Amr.Process | amr.py:131-155 | process appends ProcessFrom's bytes and samples, and returns its outcome. |
| ConverterLaws.RoundLeast | amr.py:125-129 | No multiple of 8 that is at least n lies below round(n). |
| ConverterLaws.SkipHeadersFirstNonZero | amr.py:135-138 | Header skipping stops a whole number of headers past its start, just past the first header with a set bit. Every header before that one is all zero. |
| ConverterLaws.SkipHeadersExhausted | amr.py:135-138 | Header skipping fails exactly when every header that fits is all zero: all bits up to the end of the last whole header are clear. |
| ConverterLaws.SkipHeadersTrailingZeros | amr.py:134-138 | With no set bit left, header skipping runs off the data with IndexError. |
| ConverterLaws.ReadTocEntriesOk | amr.py:139-143 | A table of contents holds, in order, each field masked with 0x7C, with F set on all but the last. It ends just past its last field. |
| ConverterLaws.ReadTocEntriesErr | amr.py:139-143 | Reading the table of contents fails exactly when every field that fits has its F bit set. |
| ConverterLaws.FrameCases | amr.py:145-154 | A reserved frame type fails before writing. A payload that does not fit writes the entry and fails with IndexError. Otherwise the entry and its padded payload are written and the payload bits are read. |
| ConverterLaws.FramesPass | amr.py:144-154 | The frame loop completes exactly when no entry is reserved and all payloads fit. It then writes every entry with its payload and reads every payload. |
| ConverterLaws.FramesInvalidMode | amr.py:145-149 | The frame loop stops on a reserved frame type only at the first reserved entry, having written every complete frame before it. |
| ConverterLaws.FramesIndexError | amr.py:151-153 | The frame loop runs out of data only in the payload of its last counted entry, after writing that entry. |
| ConverterLaws.ProcessTrailingZeros | amr.py:132-138 | Trailing zero bits after the last superframe end processing in IndexError, with nothing written. |
| Converter.Be32 | amr.py:167 | struct.pack(">I", n) gives four bytes. FromBe32RoundTrip shows they are the big-endian digits of n. |
| Converter.Magic | amr.py:163-167 | The magic starts with "#!AMR", has a '-' right after it exactly for AMR-WB, and ends its text with a line feed. For several channels, the channel count follows as Be32. Its length is that of the chosen magic. MagicInjective holds its law. |
| ConverterLaws.FromBe32RoundTrip | amr.py:167 | Every 4-byte big-endian string encodes the number it decodes to. |
| ConverterLaws.MagicInjective | amr.py:163-167 | Two configurations give the same magic exactly when they have the same codec and channel count. |

## Left out

- The command line (`__main__`, argparse), `processFile`, `closeOutput` and
  real file I/O are left out. The output file is the `output` field. Bytes
  written before a failure stay written, as they do in the file.
- Writing frames before `openOutput` is left out. The model's output always
  exists, while the source's `fileOut` is None there, which fails with
  AttributeError.
- The `__str__` debugging views of both bit classes are left out.
- The unittest machinery (TestCase, assertEqual) is left out. The five tests
  are lemmas about the template's condition.
- Interleaving and CRC are left out. The source does not support them either.
- `python -O` is left out. The model keeps the `assert` statements at
  amr.py:121 and 147-148 in force, as a default run does.
- Merger.PutBits: a negative bitlen (-7..-1, with empty data) is modelled as
  the source runs it. It erases bits and raises IndexError when the pop finds
  no byte. The intended meaning of a negative width is not asserted.
- `__init__`'s defaults (zWB=True, zOctetAlign=True, nCHAN=1) are left out.
  Converter.Amr.Create takes all three explicitly.
- ConverterLaws.FromBe32RoundTrip: only Be32(FromBe32(b)) == b is proved. The
  other direction, FromBe32(Be32(n)) == n, is not stated, because its proof
  turns integers back into bytes and exceeds the verifier's resource limit.
- ConverterLaws.MagicInjective: the channel count is in 1..6, as __init__
  enforces. Injectivity of the 32-bit encoding is not stated for larger
  numbers.

## Findings

| source | as written | input that shows it | evidently intended | confidence | as-written member | corrected member |
|---|---|---|---|---|---|---|
| amr.py:86-88 | put pops the last complete byte back into lastVal whenever 0 < offset + bitlen % 8 < 8. After a partial byte, a fragment whose bitlen is a positive multiple of 8 has bitlen % 8 == 0, so its last whole byte is popped over the saved partial byte, and 8 bits are lost. | put('\xAA', 3) then put('\x55', 8): result() is ('\xA0', 3), where ('\xAA\xA0', 11) is expected | pop only when the fragment ends inside a byte (bitlen % 8 != 0), so every bit is kept | not executed | Vectors.LostByteWitness | Merger.BitMerger.PutCorrected |
