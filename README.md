# Tiff_Reader in Dafny

A model of `tiff_reader.py`, a reader for baseline, uncompressed TIFF files
(TIFF 6.0, section 2: the image file header, the image file directory, or IFD,
its 12-byte entries and their field types). The model covers:

- the reader's session: the file cursor, `byte_order`, `firstrecord_offset`,
  `nextifd_offset` and `currentFrame`;
- `open`, which reads the signature and the first IFD offset and then decodes
  the first frame;
- the primitive reads `read_int8`, `read_int16` and `read_int32`;
- `read_ifd`, which decodes one entry, with its inline and offset paths and
  its end-of-file guards;
- the walk along the IFD chain: `has_next_frame`, `read_next_frame` with its
  tag dispatch into a `StripFrame`, and `count_frames`;
- the checks and strip reads of `get_sample_data`.

The file is an immutable byte sequence. Every Python exception that can escape
becomes a `Fault`, except in the two places where the model follows the
code's evident intent instead (the IndexError of a LONG entry with
`count <= 1`, and the struct.error of a big-endian read of two or more
values; see below):

- `struct.error` on a short read or a bad format string;
- `OSError` (EINVAL) on a seek to a negative offset;
- `ValueError` on a `chr()` outside `0..0x10FFFF`;
- `IndexError`.

The project has two layers.

- **Specification functions** (modules `Bytes`, `Cursor`, `Entries`, `Frames`
  and `Sessions`). They give each operation as a function of the bytes and
  the session before it. The result is an `Outcome`: the value and the new
  state, or the fault that aborts the operation. Each loop of the source is a
  tail-recursive function with an accumulator. Lemmas state what those
  functions mean. Examples:
  - the decoders round-trip with their encoders;
  - a read of `n` bytes moves the cursor by exactly `n`;
  - each inline and offset path of `read_ifd` keeps exactly the values the
    field or the offset holds;
  - the cursor ends 12 bytes (8 in one case) past the start of the entry;
  - in the dispatch, the last entry with a given tag wins;
  - `count_frames` counts the unique chain of IFDs;
  - `get_sample_data` reads the strips in order.
- **The class `Reader.TiffReader`.** Its fields are the session. Its methods
  move the cursor and change `currentFrame` step by step, with the same loops
  as the source. Each method is proved to return what its specification
  function returns, and to leave its fields in the state that function gives.

Where the code departs from TIFF 6.0 or from its evident intent, the model follows the code:

- 32-bit values are signed (`'i'`).
- A BYTE or ASCII entry with `count <= 0` leaves the cursor 8 bytes past the
  entry's start, not 12.
- The RATIONAL guard allows `count*4` bytes although `count*8` are read.
- `value2` is `pvalue[0]`, not `pvalue2[0]`.
- `currentFrame` is reset before the "room for the entry count" check.
- Only the 16-bit branch of `get_sample_data` keeps what it reads, and it
  returns a flag, not the samples. The 8- and 32-bit branches pass an empty
  list to the display.
- Indexing `bitspersample[sample]` is Python indexing: a negative index
  counts from the end, and an index out of range raises.
- The description is built with `chr`, one code point per value, and raises
  when `pvalue` has fewer than `count` values.

Two departures are the exception. For a LONG entry with `count <= 1` and for
big-endian reads of two or more values, the model follows the evident intent
(`Entries.EntryLongInline`, `Cursor.ReadN`), so `read_ifd`, `read_next_frame`,
`open` and `get_sample_data` never raise there. In the code as written, the
first raises IndexError and the second struct.error; for example, `open`
raises on any file with a LONG entry of one value, such as a single-strip
StripOffsets. The code as written is modelled beside the intent
(`Entries.LongFirstAsWritten`, `Bytes.UnpackAsWritten`); see "## Findings".

## Model

| member | source | states |
|---|---|---|
| Bytes.U16At | tiff_reader.py:88-93 | format `'H'`/`'>H'` yields an unsigned 16-bit value, `0 <= v < 2^16` |
| Bytes.I32At | tiff_reader.py:96-101 | format `'i'`/`'>i'` yields a signed 32-bit value in `[-2^31, 2^31)` |
| Bytes.U16RoundTrip | tiff_reader.py:88-93 | decoding the encoding of any 16-bit value in either byte order gives it back |
| Bytes.U16Bytes | tiff_reader.py:88-93 | every two bytes are the encoding of the value they decode to (decoding is injective) |
| Bytes.U32RoundTrip | tiff_reader.py:96-101 | the unsigned 32-bit decoding inverts the encoding in either order |
| Bytes.U32Bytes | tiff_reader.py:96-101 | every four bytes are the encoding of their unsigned value |
| Bytes.I32RoundTrip | tiff_reader.py:96-101 | `'i'` is two's complement: decoding the encoding of any signed 32-bit value gives it back |
| Bytes.I32Bytes | tiff_reader.py:96-101 | every four bytes are the two's complement encoding of the value they decode to |
| Bytes.I32Sign | tiff_reader.py:96-101 | a 32-bit value is negative exactly when the top bit of its most significant byte (first in big-endian, last in little-endian) is set |
| Bytes.BigEndianSwapsBytes | tiff_reader.py:81-101 | a big-endian value of any width is the little-endian value of the same bytes reversed |
| Bytes.Unpack | tiff_reader.py:81-101 | unpacking k values yields exactly k values |
| Bytes.UnpackAt | tiff_reader.py:81-101 | value j of an unpacked buffer is the value decoded at `at + j*w`, inside the buffer |
| Bytes.UnpackBytes | tiff_reader.py:81-86 | 1-byte values are the bytes themselves, in either order |
| Bytes.UnpackAsWritten | tiff_reader.py:81-101 | `struct.unpack` of the format string as the source builds it: a big-endian format of two or more codes raises struct.error (see Findings); any other format of `max(k, 0)` codes succeeds exactly when the buffer holds `max(k, 0)*w` bytes and then yields the values decoded from it, otherwise it raises struct.error |
| Bytes.UnpackSlice | tiff_reader.py:81-101 | unpacking a slice of the file is unpacking the file at the slice's start |
| Bytes.BigEndianPairRejected | tiff_reader.py:88-91 | a big-endian read of two 16-bit values fails on exactly the four bytes it needs, where the intended unpacking yields `[1, 2]` |
| Cursor.Seek | tiff_reader.py:123 | `file.seek(p)` succeeds exactly for `p >= 0`, and the cursor is then `p` |
| Cursor.ReadN | tiff_reader.py:81-101 | a read of n bytes (n a multiple of the width) succeeds exactly when n bytes remain, yields `n/w` values and moves the cursor to `pos + n`; a negative n reads the rest of the file and succeeds only at its end |
| Cursor.FileRead | tiff_reader.py:81-101 | `f.read(n)` returns n bytes, or all the bytes after the cursor when n is negative or fewer than n remain |
| Cursor.ReadNAsWritten | tiff_reader.py:81-101 | outside big-endian reads of two or more values, `Cursor.ReadN` raises and returns exactly what `struct.unpack` of the format as written does on the bytes `f.read(n)` returns, with `int(n/w)` codes |
| Cursor.ReadNValue | tiff_reader.py:81-101 | value j of a successful read is the j-th w-byte group after the cursor, decoded in the session's byte order |
| Cursor.ReadValueIsFirstOfRead | tiff_reader.py:105-107 | `read_intX()[0]` succeeds exactly when w bytes remain, and is the single value of a default-size read |
| Cursor.ReadLoopReads | tiff_reader.py:122-125 | the offset loop succeeds exactly when the k values lie in the file, fails only with a short read, and appends the k unpacked values with the cursor after them |
| Cursor.PairLoop | tiff_reader.py:154-156 | the RATIONAL loop grows numerators and denominators by the same count k |
| Cursor.Halves | tiff_reader.py:154-156 | the numerators (or the denominators) of k pairs are k values |
| Cursor.HalvesAt | tiff_reader.py:154-156 | pair j has its numerator at `pos + 8j` and its denominator at `pos + 8j + 4` |
| Cursor.PairLoopReads | tiff_reader.py:149-156 | the RATIONAL loop succeeds exactly when all `8k` bytes lie in the file, and then yields the interleaved numerators and denominators |
| Entries.InlineLoopSucceeds | tiff_reader.py:112-131 | the inline loop reads every slot of the field, so it succeeds exactly when the whole field is in the file |
| Entries.InlineLoopReads | tiff_reader.py:112-131 | the inline loop keeps the first `count` values of the field in order and leaves the cursor after the field |
| Entries.OffsetValuesRead | tiff_reader.py:119-148 | the offset path reads nothing when `offset + count*size > file_size`, raises for a negative offset, and otherwise yields the count values stored at the offset |
| Entries.FieldAt | tiff_reader.py:112-158 | whenever denominators are read there are as many numerators |
| Entries.LongFirstAsWritten | tiff_reader.py:139-141 | `pvalue[0] = v` succeeds exactly when pvalue is non-empty; on a fresh IFD it raises (see Findings) |
| Entries.ReadEntry | tiff_reader.py:160-163 | `value == pvalue[0]` whenever pvalue is non-empty; `value2 == pvalue[0]` whenever pvalue2 is non-empty |
| Entries.EntryHeader | tiff_reader.py:103-110 | tag, type and count are the first 8 bytes of the entry; an entry cut short by the end of the file raises |
| Entries.EntryCursor | tiff_reader.py:109-167 | after `read_ifd` the cursor is 12 bytes past the entry's start, or 8 for BYTE/ASCII with `count <= 0`, whatever path was taken |
| Entries.EntryBytesInline | tiff_reader.py:112-118 | a BYTE or ASCII entry with `1 <= count <= 4` keeps the first count bytes of its field |
| Entries.InlineBytes | tiff_reader.py:114-118 | the inline loop over a 4-byte field keeps its first count bytes and ends after the field |
| Entries.EntryShortsInline | tiff_reader.py:126-131 | a SHORT entry with `count <= 2` keeps the first count of the two 16-bit values in its field |
| Entries.InlineShorts | tiff_reader.py:127-131 | the inline loop over two 16-bit slots keeps the first count and ends after the field |
| Entries.EntryLongInline | tiff_reader.py:139-141 | a LONG entry with `count <= 1` holds its value in the field: pvalue is that single value and so is value |
| Entries.EntryRawValue | tiff_reader.py:157-161 | an entry of unknown type has no values, and value is the raw 32-bit field |
| Entries.EntryOffset | tiff_reader.py:119-148 | BYTE/ASCII/SHORT/LONG entries above the inline limit: pvalue is empty when the guard fails, a negative offset raises, and otherwise pvalue is the count values at the offset |
| Entries.EntryBytesEmpty | tiff_reader.py:112-113 | a BYTE or ASCII entry with `count <= 0` keeps no values, has value 0 and value2 0, and leaves the cursor 8 bytes past its start |
| Entries.EntryRationalEmpty | tiff_reader.py:149-163 | a RATIONAL entry with `count <= 0` still reads its offset and seeks there when `offset + count*4` fits: a negative offset raises OSError (EINVAL); otherwise both lists are empty and the cursor ends 12 bytes past the start |
| Entries.EntryRational | tiff_reader.py:149-163 | RATIONAL with `count >= 1` always reads at its offset: nothing when `offset + count*4` is past the end; the numerators, the denominators and `value2 == pvalue[0]` when the `8*count` bytes are there; a short read when only the guard passes; an OSError (EINVAL) when the guard passes with a negative offset |
| Frames.AppendCharsAppends | tiff_reader.py:217-220 | the description loop succeeds exactly when pvalue has count values, all code points, and then appends them in order |
| Frames.Apply | tiff_reader.py:199-227 | the dispatch raises only for an IMAGEDESCRIPTION with a bad pvalue; stripcount is the count of a StripOffsets or StripByteCounts entry and is otherwise unchanged; the description grows by the entry's first count values |
| Frames.ApplySetsField | tiff_reader.py:199-227 | each recognised tag sets its own field to value (or pvalue) and no other; an unrecognised tag changes nothing |
| Frames.LastWith | tiff_reader.py:196-227 | the last entry with a tag in a set is one of the entries, and when there is none no entry has such a tag |
| Frames.LastWins | tiff_reader.py:196-227 | after the dispatch, every scalar field holds the value of the last entry with its tag, or its default when there is none |
| Frames.LastListWins | tiff_reader.py:196-227 | bitspersample, stripoffsets and stripbytecounts hold the pvalue of the last entry with their tag |
| Frames.LastStripCountWins | tiff_reader.py:208-223 | stripcount is the count of whichever StripOffsets or StripByteCounts entry came last |
| Sessions.SignatureOrder | tiff_reader.py:66-72 | the byte order is big-endian exactly for the signature `77,77,0,42`; any other keeps the little-endian default |
| Sessions.Open | tiff_reader.py:61-75 | open on an empty file leaves the initial session (little-endian, fresh frame); a non-empty file opens only when it holds the whole 8-byte header |
| Sessions.OpenReadsHeader | tiff_reader.py:61-75 | on a file of at least 8 bytes, open picks the order from bytes 0-3, reads the first IFD offset from bytes 4-7, and reads the first frame from there |
| Sessions.OpenShortFile | tiff_reader.py:67-73 | a non-empty file shorter than its 8-byte header raises a short read |
| Sessions.EntriesDispatched | tiff_reader.py:196-227 | the entry loop's frame is the in-order dispatch of the entries it read, and its cursor is after the last of them |
| Sessions.ReadNextFrame | tiff_reader.py:188-233 | returns true exactly when `0 < nextifd_offset` and `nextifd_offset + 2 < file_size`; without a next frame nothing changes; without room for the count only the frame is reset; byte order and first offset never change |
| Sessions.NextFrameFollowsLink | tiff_reader.py:228-229 | after a frame is read, nextifd_offset is the 32-bit link after the IFD's `count` entries, and the cursor is just past it |
| Sessions.NextFrameDispatches | tiff_reader.py:192-227 | the frame read is the in-order dispatch, into a fresh StripFrame, of the entries of the IFD at the old nextifd_offset |
| Sessions.CountFrames | tiff_reader.py:297-310 | count_frames leaves the session (cursor included) as it was |
| Sessions.CountIsChainLength | tiff_reader.py:297-310 | every count returned is the length of a chain of IFDs linked from firstrecord_offset |
| Sessions.CountFindsChain | tiff_reader.py:297-310 | a chain within the fuel bound is counted in full |
| Sessions.ChainUnique | tiff_reader.py:301-307 | the chain from an offset is unique, so the count is the number of IFDs reached |
| Sessions.PyIndex | tiff_reader.py:243 | `bitspersample[sample]` succeeds exactly for `-len <= sample < len`, and yields an element of the list |
| Sessions.StripLoopSucceeds | tiff_reader.py:248-268 | the strip loop succeeds exactly when every strip has an offset, a byte count and enough bytes; the 8- and 32-bit loops keep nothing |
| Sessions.StripLoopReads | tiff_reader.py:254-258 | the 16-bit loop appends one buffer per strip, in order, each read at that strip's offset |
| Sessions.SampleData | tiff_reader.py:235-276 | get_sample_data leaves the session as it was, and returns no strips when it returns false |
| Sessions.HasNext | tiff_reader.py:182-186 | has_next_frame: true exactly when `0 < nextifd_offset < file_size` |
| Sessions.FreshFrameRefused | tiff_reader.py:279-295 | a fresh StripFrame (0 by 0, uncompressed, one sample per pixel, planar, no strips) is refused by get_sample_data; once its size is set, its planar default keeps a frame with several samples per pixel from being refused as interleaved |
| Sessions.SampleDataRefuses | tiff_reader.py:236-270 | it returns false exactly for a compressed, interleaved or empty frame, a sample size other than 8, 16 or 32, or a frame without strips; a sample index out of range raises |
| Sessions.SampleDataSucceeds | tiff_reader.py:248-258 | with 16-bit samples it succeeds exactly when every strip can be read |
| Sessions.SampleDataReadsStrips | tiff_reader.py:254-258 | it then yields stripcount buffers, buffer i being the values of `stripbytecounts[i]` bytes at `stripoffsets[i]` |
| Sessions.StripsRead | tiff_reader.py:254-258 | a successful 16-bit strip loop has one buffer per strip, each the read at its offset |
| Reader.TiffReader.constructor | tiff_reader.py:58-66 | a new reader holds the file's bytes, its cursor at 0, little-endian, no IFD and a fresh frame |
| Reader.TiffReader.Seek | tiff_reader.py:123 | the method seek ends as `Cursor.Seek` |
| Reader.TiffReader.ReadInts | tiff_reader.py:81-101 | `read_intX(n)` returns what `Cursor.ReadN` yields and moves the cursor where it says |
| Reader.TiffReader.ReadOne | tiff_reader.py:105-107 | `read_intX()[0]` returns the single value at the cursor and moves past it |
| Reader.TiffReader.ReadInline | tiff_reader.py:115-131 | the inline `for` loop ends as `Entries.InlineLoop` |
| Reader.TiffReader.ReadAtOffset | tiff_reader.py:119-148 | the offset path with its guard, seek and loop ends as `Entries.OffsetValues` |
| Reader.TiffReader.ReadPairsAtOffset | tiff_reader.py:149-156 | the RATIONAL path ends as `Entries.OffsetPairs` |
| Reader.TiffReader.ReadField | tiff_reader.py:112-158 | the type dispatch of read_ifd ends as `Entries.FieldAt` |
| Reader.TiffReader.ReadIfd | tiff_reader.py:103-168 | read_ifd returns `Entries.ReadEntry`'s entry with the cursor where it leaves it |
| Reader.TiffReader.ApplyEntry | tiff_reader.py:199-227 | the in-place dispatch, including the description loop, leaves currentFrame as `Frames.Apply` gives it, or raises its fault |
| Reader.TiffReader.ReadAndApply | tiff_reader.py:197-227 | one turn of the entry loop ends as the entry loop's first step |
| Reader.TiffReader.ReadEntriesInto | tiff_reader.py:196-227 | the entry loop ends as `Sessions.EntriesLoop`: same fault, or the same frame and cursor |
| Reader.TiffReader.HasNextFrame | tiff_reader.py:182-186 | has_next_frame on the reader's fields: `Sessions.HasNext` of the file and the session |
| Reader.TiffReader.ReadNextFrame | tiff_reader.py:188-233 | read_next_frame returns and leaves the fields as `Sessions.ReadNextFrame` gives them |
| Reader.TiffReader.Open | tiff_reader.py:61-75 | open leaves the fields as `Sessions.Open` gives them |
| Reader.TiffReader.CountFrames | tiff_reader.py:297-310 | the while loop returns `Sessions.CountFrames`' count and restores the cursor |
| Reader.TiffReader.GetSampleData | tiff_reader.py:235-271 | get_sample_data returns `Sessions.SampleData`'s flag and strips, and restores the cursor |

## Left out

- Display: `np.asarray`, `plt.imshow` and `plt.show` (tiff_reader.py:272-274) are foreign library calls and are not modelled; the strips that would be shown are returned instead. The PIL import is not modelled either.
- Sessions.SampleData: where the display would raise, the model returns true with the strips. In the 8- and 32-bit branches `tif` stays empty and `plt.imshow` of an empty array raises TypeError, so the source never returns true there. In the 16-bit branch strips of different lengths make `np.asarray` (or `plt.imshow`) raise. `plt.show` blocks until the window is closed.
- Reader.TiffReader.GetSampleData: the same holds; its true result stands for the source reaching the display, not for the display succeeding.
- Reader.TiffReader.GetSampleData: the `buf` parameter is never read by the source and is not a parameter of the model.
- Reader.TiffReader.GetSampleData: the three strip loops (8, 16 and 32 bits) are one loop over the sample width. It seeks and reads the same way and keeps the reads only for 16 bits, as the source does.
- File handling: `open()`, `os.path.getsize` and `close` are replaced by the byte sequence given to the constructor, whose length is `file_size`. The `if (self.file)` checks always pass.
- The `__main__` driver (tiff_reader.py:312-338) and the `print` at line 231.
- The per-strip locals `offset`, `pixels` and `imagesize` (tiff_reader.py:253, 259-263, 268): they never affect a result.
- The unused constants (SEEK_END, TIFF_ORDER_UNKNOWN, the sample formats other than UINT, the other compressions, the unused tags, TIFF_HEADER_SIZE and TIFF_HEADER_MAX_ENTRIES).
- Unprefixed `struct` formats use the host's byte order. The host is taken to be little-endian.
- The description is a sequence of code points, not a Python `str`.
- Reader.TiffReader.ReadNextFrame: after an exception, the model states only which fault was raised. It does not state the fields the source had already changed. The same holds for every method and specification function: a `Failed` outcome carries no state.
- Reader.TiffReader.Open: on an empty file the source never sets `firstrecord_offset` and `nextifd_offset`, so a later use raises AttributeError. The model sets them to 0.
- Reader.TiffReader.CountFrames: the source loops forever on a cyclic IFD chain. The model takes a fuel bound and raises `NoTermination` when the bound runs out. Every chain within the bound is counted in full (`Sessions.CountFindsChain`).
- StripFrame and IFD are values updated by record update, not objects mutated in place. The only aliasing in the source (`bitspersample` and the strip lists sharing the IFD's `pvalue`) is never mutated afterwards, so nothing observable is lost.
- Python's `int(n/2)` goes through floating point. The counts here are at most 32-bit, so it equals truncating division, which is what the model uses.

## Findings

| source | as written | input that shows it | evidently intended | confidence | as-written member | corrected member |
|---|---|---|---|---|---|---|
| tiff_reader.py:139-141 | `ifd.pvalue[0] = self.read_int32()[0]` assigns into the fresh IFD's empty list, which raises IndexError | any LONG entry with count 1, e.g. the little-endian entry `00 01 04 00 01 00 00 00 40 00 00 00` (ImageWidth, LONG, 1 value, 64) | pvalue is `[v]` and value is v, which the width and height dispatch relies on | high; not executed | Entries.LongFirstAsWritten | Entries.EntryLongInline |
| tiff_reader.py:84, 91, 99 | in big-endian mode the format is `'>H' * k` (likewise `'>B'`, `'>i'`), which repeats the byte-order prefix; struct accepts it only at the start, so every big-endian read of two or more values raises struct.error (the multi-value reads are in get_sample_data) | a big-endian file whose 16-bit strip is the 4 bytes `00 01 00 02` | the prefix once, then k codes: the values `[1, 2]` | high; not executed | Bytes.UnpackAsWritten | Cursor.ReadN |
