/** read_ifd: the decoding of one 12-byte IFD entry (tag, type, count and a
    four-byte field that holds the values or the offset where they are) into
    the IFD record. The functions here follow the reader's cursor from the
    start of the entry; the Reader module runs the same steps on the object. */
module Entries {
  import opened Outcomes
  import opened Bytes
  import opened Cursor

  /** Field types the reader distinguishes (TIFF 6.0, section 2, "Types"). */
  const TYPE_BYTE: int := 1
  const TYPE_ASCII: int := 2
  const TYPE_SHORT: int := 3
  const TYPE_LONG: int := 4
  const TYPE_RATIONAL: int := 5

  /** The IFD record: value is the first value (or the raw field of an
      unknown type), pvalue and pvalue2 the values read, the denominators of
      a RATIONAL in pvalue2. */
  datatype Entry = Entry(tag: int, typ: int, count: int, value: int, value2: int,
                         pvalue: seq<int>, pvalue2: seq<int>)

  /** What the four-byte field yields: the values read, the raw 32-bit field
      of an unknown type (0 otherwise), and whether the cursor was moved to
      an offset and must be put back after the field. */
  datatype Field = Field(pvalue: seq<int>, pvalue2: seq<int>, raw: int, changepos: bool)

  /** Bytes per value, as the end-of-file guards count them. */
  function GuardWidth(typ: int): Width {
    if typ == TYPE_BYTE || typ == TYPE_ASCII then 1 else if typ == TYPE_SHORT then 2 else 4
  }

  /** The largest count whose values still fit in the field itself. */
  function InlineLimit(typ: int): int {
    if typ == TYPE_BYTE || typ == TYPE_ASCII then 4 else if typ == TYPE_SHORT then 2 else 1
  }

  /** Bytes of the entry the cursor passes over: BYTE and ASCII entries with
      no values do not read their field. */
  function EntrySize(typ: int, count: int): nat {
    if (typ == TYPE_BYTE || typ == TYPE_ASCII) && count <= 0 then 8 else 12
  }

  /** `for i in range(slots): value = read(); if i < count: pvalue.insert(i, value)`:
      all slots of the field are read, the first count are kept. */
  function InlineLoop(src: Source, pos: nat, w: Width, i: nat, slots: nat, count: int, acc: seq<int>): Outcome<seq<int>, nat>
    decreases slots - i
  {
    if i >= slots then Done(acc, pos)
    else
      match ReadValue(src, pos, w)
      case Failed(e) => Failed(e)
      case Done(v, p) => InlineLoop(src, p, w, i + 1, slots, count, if i < count then acc + [v] else acc)
  }

  /** How many of the slots i.. the inline loop keeps. */
  function Kept(i: nat, slots: nat, count: int): nat
    requires i <= slots
  {
    if count <= i then 0 else if count >= slots then slots - i else count - i
  }

  /** The inline loop succeeds exactly when the remaining slots lie in the
      file (or none remain). */
  lemma {:induction false} InlineLoopSucceeds(src: Source, pos: nat, w: Width, i: nat, slots: nat, count: int, acc: seq<int>)
    requires i <= slots
    ensures InlineLoop(src, pos, w, i, slots, count, acc).Done? <==> i == slots || pos + (slots - i) * w <= |src.bytes|
    ensures InlineLoop(src, pos, w, i, slots, count, acc).Failed? ==> InlineLoop(src, pos, w, i, slots, count, acc).fault == ShortRead
    decreases slots - i
  {
    MulWidth(slots - i, w);
    if i < slots && pos + w <= |src.bytes| {
      var acc' := if i < count then acc + [DecodeAt(src.order, w, src.bytes, pos)] else acc;
      InlineLoopSucceeds(src, pos + w, w, i + 1, slots, count, acc');
      assert pos + w + (slots - (i + 1)) * w == pos + (slots - i) * w;
    }
  }

  /** When it succeeds, the inline loop keeps the first values of the field,
      in order, and leaves the cursor after the whole field. */
  lemma {:induction false} InlineLoopReads(src: Source, pos: nat, w: Width, i: nat, slots: nat, count: int, acc: seq<int>)
    requires i <= slots && pos + (slots - i) * w <= |src.bytes|
    ensures InlineLoop(src, pos, w, i, slots, count, acc)
        == Done(acc + Unpack(src.order, w, src.bytes, pos, slots - i)[..Kept(i, slots, count)], pos + (slots - i) * w)
    decreases slots - i
  {
    MulWidth(slots - i, w);
    if i == slots {
      assert (slots - i) * w == 0;
      assert acc + Unpack(src.order, w, src.bytes, pos, slots - i)[..0] == acc;
    } else {
      var v := DecodeAt(src.order, w, src.bytes, pos);
      var acc' := if i < count then acc + [v] else acc;
      assert pos + w + (slots - (i + 1)) * w == pos + (slots - i) * w;
      InlineLoopReads(src, pos + w, w, i + 1, slots, count, acc');
      var rest := Unpack(src.order, w, src.bytes, pos + w, slots - (i + 1));
      assert Unpack(src.order, w, src.bytes, pos, slots - i) == [v] + rest;
      if i < count {
        ConsPrefix(v, rest, Kept(i + 1, slots, count));
        assert acc' + rest[..Kept(i + 1, slots, count)] == acc + ([v] + rest[..Kept(i + 1, slots, count)]);
      }
    }
  }

  /** Taking n+1 elements of v::rest is v followed by n elements of rest. */
  lemma ConsPrefix(v: int, rest: seq<int>, n: nat)
    requires n <= |rest|
    ensures ([v] + rest)[..n + 1] == [v] + rest[..n]
  {
  }

  /** The offset path: `offset = read_int32()[0]`; when
      `offset + count*w <= file_size`, seek to offset and read count values
      of width w; otherwise read nothing. */
  function OffsetValues(src: Source, at: nat, w: Width, count: int): Outcome<seq<int>, nat> {
    match ReadValue(src, at, 4)
    case Failed(e) => Failed(e)
    case Done(offset, p) =>
      if offset + count * w <= |src.bytes| then
        match Seek(offset)
        case Failed(e) => Failed(e)
        case Done(_, q) => ReadLoop(src, q, w, count, [])
      else Done([], p)
  }

  /** The offset path of a RATIONAL: the guard counts 4 bytes per value
      although each value is a pair of 4-byte integers (as written). */
  function OffsetPairs(src: Source, at: nat, count: int): Outcome<(seq<int>, seq<int>), nat> {
    match ReadValue(src, at, 4)
    case Failed(e) => Failed(e)
    case Done(offset, p) =>
      if offset + count * 4 <= |src.bytes| then
        match Seek(offset)
        case Failed(e) => Failed(e)
        case Done(_, q) => PairLoop(src, q, count, [], [])
      else Done(([], []), p)
  }

  /** The offset path reads nothing when the guard fails, raises when the
      offset is negative, and otherwise yields the count values stored at
      the offset. */
  lemma OffsetValuesRead(src: Source, at: nat, w: Width, count: nat)
    requires at + 4 <= |src.bytes|
    ensures var offset := I32At(src.bytes, at, src.order);
      && (offset + count * w > |src.bytes| ==> OffsetValues(src, at, w, count) == Done([], at + 4))
      && (offset + count * w <= |src.bytes| && offset < 0 ==> OffsetValues(src, at, w, count) == Failed(NegativeSeek))
      && (offset + count * w <= |src.bytes| && offset >= 0 ==>
            OffsetValues(src, at, w, count).Done? &&
            OffsetValues(src, at, w, count).value == Unpack(src.order, w, src.bytes, offset, count))
  {
    var offset := I32At(src.bytes, at, src.order);
    if offset >= 0 && offset + count * w <= |src.bytes| {
      ReadLoopReads(src, offset, w, count, []);
      assert [] + Unpack(src.order, w, src.bytes, offset, count) == Unpack(src.order, w, src.bytes, offset, count);
    }
  }

  /** The values the field of an entry of type typ and the given count
      yields, the cursor being at the field. */
  function FieldAt(src: Source, at: nat, typ: int, count: int): (o: Outcome<Field, nat>)
    ensures o.Done? && |o.value.pvalue2| > 0 ==> |o.value.pvalue| == |o.value.pvalue2|
  {
    if typ == TYPE_BYTE || typ == TYPE_ASCII then
      if count <= 0 then Done(Field([], [], 0, false), at)
      else if count <= 4 then Values(InlineLoop(src, at, 1, 0, 4, count, []), false)
      else Values(OffsetValues(src, at, 1, count), true)
    else if typ == TYPE_SHORT then
      if count <= 2 then Values(InlineLoop(src, at, 2, 0, 2, count, []), false)
      else Values(OffsetValues(src, at, 2, count), true)
    else if typ == TYPE_LONG then
      if count <= 1 then
        // The source assigns pvalue[0] of an empty list here; the single value
        // is made the one element of pvalue, as intended (LongFirstAsWritten).
        match ReadValue(src, at, 4)
        case Failed(e) => Failed(e)
        case Done(v, p) => Done(Field([v], [], 0, false), p)
      else Values(OffsetValues(src, at, 4, count), true)
    else if typ == TYPE_RATIONAL then
      match OffsetPairs(src, at, count)
      case Failed(e) => Failed(e)
      case Done(pairs, p) => Done(Field(pairs.0, pairs.1, 0, true), p)
    else
      match ReadValue(src, at, 4)
      case Failed(e) => Failed(e)
      case Done(v, p) => Done(Field([], [], v, false), p)
  }

  /** A field holding the values of a loop. */
  function Values(o: Outcome<seq<int>, nat>, changepos: bool): Outcome<Field, nat> {
    match o
    case Failed(e) => Failed(e)
    case Done(vs, p) => Done(Field(vs, [], 0, changepos), p)
  }

  /** `ifd.pvalue[0] = read_int32()[0]` on the fresh, empty pvalue of a LONG
      entry with count <= 1, as written: the assignment is out of range. */
  function LongFirstAsWritten(pvalue: seq<int>, v: int): (r: Result<seq<int>>)
    ensures r.Ok? <==> |pvalue| > 0
    ensures r.Ok? ==> |r.value| == |pvalue| && r.value[0] == v
  {
    if |pvalue| == 0 then Raised(IndexOutOfRange) else Ok(pvalue[0 := v])
  }

  /** read_ifd from the entry at pos: the header, the field, the value
      taken from pvalue, and the cursor put back to just after the field
      (`seek(pos); seek(4, SEEK_CUR)`) when it was moved to an offset. */
  function ReadEntry(src: Source, pos: nat): (o: Outcome<Entry, nat>)
    ensures o.Done? && |o.value.pvalue| > 0 ==> o.value.value == o.value.pvalue[0]
    ensures o.Done? && |o.value.pvalue2| > 0 ==> |o.value.pvalue| > 0 && o.value.value2 == o.value.pvalue[0]
  {
    match ReadValue(src, pos, 2)
    case Failed(e) => Failed(e)
    case Done(tag, p1) =>
      match ReadValue(src, p1, 2)
      case Failed(e) => Failed(e)
      case Done(typ, p2) =>
        match ReadValue(src, p2, 4)
        case Failed(e) => Failed(e)
        case Done(count, p3) => Complete(tag, typ, count, p3, FieldAt(src, p3, typ, count))
  }

  /** The record read_ifd returns once the field is read. value2 is taken
      from pvalue, not pvalue2, as written. */
  function Complete(tag: int, typ: int, count: int, at: nat, f: Outcome<Field, nat>): Outcome<Entry, nat>
    requires f.Done? && |f.value.pvalue2| > 0 ==> |f.value.pvalue| == |f.value.pvalue2|
  {
    match f
    case Failed(e) => Failed(e)
    case Done(fld, p) =>
      var value := if |fld.pvalue| > 0 then fld.pvalue[0] else fld.raw;
      var value2 := if |fld.pvalue2| > 0 then fld.pvalue[0] else 0;
      Done(Entry(tag, typ, count, value, value2, fld.pvalue, fld.pvalue2), if fld.changepos then at + 4 else p)
  }

  /** An entry is its header followed by its field: reading fails when the
      8 header bytes are not there, and otherwise the tag, type and count
      are the header's three values. */
  lemma EntryHeader(src: Source, pos: nat)
    ensures pos + 8 > |src.bytes| ==> ReadEntry(src, pos) == Failed(ShortRead)
    ensures pos + 8 <= |src.bytes| ==>
      var typ := U16At(src.bytes, pos + 2, src.order);
      var count := I32At(src.bytes, pos + 4, src.order);
      ReadEntry(src, pos) == Complete(U16At(src.bytes, pos, src.order), typ, count, pos + 8, FieldAt(src, pos + 8, typ, count))
  {
  }

  /** After read_ifd the cursor is 12 bytes past the start of the entry, or
      8 for a BYTE or ASCII entry with no values, whatever path the field
      took. */
  lemma EntryCursor(src: Source, pos: nat)
    ensures ReadEntry(src, pos).Done? ==>
      ReadEntry(src, pos).state == pos + EntrySize(ReadEntry(src, pos).value.typ, ReadEntry(src, pos).value.count)
  {
    EntryHeader(src, pos);
    if pos + 8 <= |src.bytes| {
      var typ := U16At(src.bytes, pos + 2, src.order);
      var count := I32At(src.bytes, pos + 4, src.order);
      if typ == TYPE_BYTE || typ == TYPE_ASCII {
        InlineLoopSucceeds(src, pos + 8, 1, 0, 4, count, []);
        if pos + 12 <= |src.bytes| {
          InlineLoopReads(src, pos + 8, 1, 0, 4, count, []);
        }
      } else if typ == TYPE_SHORT {
        InlineLoopSucceeds(src, pos + 8, 2, 0, 2, count, []);
        if pos + 12 <= |src.bytes| {
          InlineLoopReads(src, pos + 8, 2, 0, 2, count, []);
        }
      }
    }
  }

  /** BYTE and ASCII entries with 1 to 4 values keep the first count bytes
      of the field. */
  lemma EntryBytesInline(src: Source, pos: nat)
    requires pos + 12 <= |src.bytes|
    requires var typ := U16At(src.bytes, pos + 2, src.order); typ == TYPE_BYTE || typ == TYPE_ASCII
    requires 1 <= I32At(src.bytes, pos + 4, src.order) <= 4
    ensures ReadEntry(src, pos).Done?
    ensures ReadEntry(src, pos).value.pvalue == src.bytes[pos + 8 .. pos + 8 + I32At(src.bytes, pos + 4, src.order)]
  {
    EntryHeader(src, pos);
    InlineBytes(src, pos + 8, I32At(src.bytes, pos + 4, src.order));
  }

  /** The inline loop over the four bytes of a field keeps the first count. */
  lemma InlineBytes(src: Source, at: nat, count: int)
    requires at + 4 <= |src.bytes| && 1 <= count <= 4
    ensures InlineLoop(src, at, 1, 0, 4, count, []) == Done(src.bytes[at .. at + count], at + 4)
  {
    InlineLoopReads(src, at, 1, 0, 4, count, []);
    UnpackBytes(src.order, src.bytes, at, 4);
    var field: seq<int> := src.bytes[at .. at + 4];
    assert Unpack(src.order, 1, src.bytes, at, 4 - 0) == field;
    assert Kept(0, 4, count) == count;
    assert [] + field[..count] == src.bytes[at .. at + count];
  }

  /** SHORT entries with at most 2 values keep the first count of the two
      16-bit values of the field. */
  lemma EntryShortsInline(src: Source, pos: nat)
    requires pos + 12 <= |src.bytes|
    requires U16At(src.bytes, pos + 2, src.order) == TYPE_SHORT
    requires I32At(src.bytes, pos + 4, src.order) <= 2
    ensures ReadEntry(src, pos).Done?
    ensures var count := I32At(src.bytes, pos + 4, src.order);
      ReadEntry(src, pos).value.pvalue
        == [U16At(src.bytes, pos + 8, src.order), U16At(src.bytes, pos + 10, src.order)][..if count < 0 then 0 else count]
  {
    EntryHeader(src, pos);
    InlineShorts(src, pos + 8, I32At(src.bytes, pos + 4, src.order));
  }

  /** The inline loop over the two 16-bit values of a field keeps the first
      count. */
  lemma InlineShorts(src: Source, at: nat, count: int)
    requires at + 4 <= |src.bytes|
    ensures InlineLoop(src, at, 2, 0, 2, count, [])
      == Done([U16At(src.bytes, at, src.order), U16At(src.bytes, at + 2, src.order)][..if count < 0 then 0 else if count > 2 then 2 else count], at + 4)
  {
    InlineLoopReads(src, at, 2, 0, 2, count, []);
    UnpackAt(src.order, 2, src.bytes, at, 2, 0);
    UnpackAt(src.order, 2, src.bytes, at, 2, 1);
    var field := [U16At(src.bytes, at, src.order), U16At(src.bytes, at + 2, src.order)];
    assert Unpack(src.order, 2, src.bytes, at, 2 - 0) == field;
    var kept := if count < 0 then 0 else if count > 2 then 2 else count;
    assert Kept(0, 2, count) == kept && (2 - 0) * 2 == 4;
    assert [] + field[..kept] == field[..kept];
  }

  /** A LONG entry with at most one value holds it in the field: pvalue is
      that one value and so is value. */
  lemma EntryLongInline(src: Source, pos: nat)
    requires pos + 12 <= |src.bytes|
    requires U16At(src.bytes, pos + 2, src.order) == TYPE_LONG
    requires I32At(src.bytes, pos + 4, src.order) <= 1
    ensures ReadEntry(src, pos).Done?
    ensures ReadEntry(src, pos).value.pvalue == [I32At(src.bytes, pos + 8, src.order)]
    ensures ReadEntry(src, pos).value.value == I32At(src.bytes, pos + 8, src.order)
  {
    EntryHeader(src, pos);
  }

  /** An entry of a type the reader does not know keeps the raw 32-bit
      field as its value and reads no values. */
  lemma EntryRawValue(src: Source, pos: nat)
    requires pos + 12 <= |src.bytes|
    requires !(1 <= U16At(src.bytes, pos + 2, src.order) <= 5)
    ensures ReadEntry(src, pos).Done?
    ensures ReadEntry(src, pos).value.pvalue == []
    ensures ReadEntry(src, pos).value.value == I32At(src.bytes, pos + 8, src.order)
  {
    EntryHeader(src, pos);
  }

  /** BYTE, ASCII, SHORT and LONG entries with more values than the field
      holds read them at the offset in the field: nothing when the
      end-of-file guard fails, a seek error for a negative offset, and
      otherwise count values, in order, each GuardWidth(typ) bytes wide. */
  lemma EntryOffset(src: Source, pos: nat)
    requires pos + 12 <= |src.bytes|
    requires 1 <= U16At(src.bytes, pos + 2, src.order) <= 4
    requires I32At(src.bytes, pos + 4, src.order) > InlineLimit(U16At(src.bytes, pos + 2, src.order))
    ensures var w := GuardWidth(U16At(src.bytes, pos + 2, src.order));
      var count := I32At(src.bytes, pos + 4, src.order);
      var offset := I32At(src.bytes, pos + 8, src.order);
      && (offset + count * w > |src.bytes| ==> ReadEntry(src, pos).Done? && ReadEntry(src, pos).value.pvalue == [])
      && (offset + count * w <= |src.bytes| && offset < 0 ==> ReadEntry(src, pos) == Failed(NegativeSeek))
      && (offset + count * w <= |src.bytes| && offset >= 0 ==>
            ReadEntry(src, pos).Done? && ReadEntry(src, pos).value.pvalue == Unpack(src.order, w, src.bytes, offset, count))
  {
    var typ := U16At(src.bytes, pos + 2, src.order);
    EntryHeader(src, pos);
    OffsetValuesRead(src, pos + 8, GuardWidth(typ), I32At(src.bytes, pos + 4, src.order));
  }

  /** A BYTE or ASCII entry with no values reads no field: it keeps no
      values, its value is 0, and the cursor stops right after the count. */
  lemma EntryBytesEmpty(src: Source, pos: nat)
    requires pos + 8 <= |src.bytes|
    requires var typ := U16At(src.bytes, pos + 2, src.order); typ == TYPE_BYTE || typ == TYPE_ASCII
    requires I32At(src.bytes, pos + 4, src.order) <= 0
    ensures ReadEntry(src, pos) == Done(Entry(U16At(src.bytes, pos, src.order), U16At(src.bytes, pos + 2, src.order),
                                              I32At(src.bytes, pos + 4, src.order), 0, 0, [], []), pos + 8)
  {
    EntryHeader(src, pos);
  }

  /** A RATIONAL entry with no values still reads its offset and seeks to it
      when the guard passes: a negative offset raises, and otherwise no
      values are kept and the cursor ends after the field. */
  lemma EntryRationalEmpty(src: Source, pos: nat)
    requires pos + 12 <= |src.bytes|
    requires U16At(src.bytes, pos + 2, src.order) == TYPE_RATIONAL
    requires I32At(src.bytes, pos + 4, src.order) <= 0
    ensures var count := I32At(src.bytes, pos + 4, src.order);
      var offset := I32At(src.bytes, pos + 8, src.order);
      && (offset < 0 && offset + count * 4 <= |src.bytes| ==> ReadEntry(src, pos) == Failed(NegativeSeek))
      && (!(offset < 0 && offset + count * 4 <= |src.bytes|) ==>
            ReadEntry(src, pos).Done? && ReadEntry(src, pos).state == pos + 12 &&
            ReadEntry(src, pos).value.pvalue == [] && ReadEntry(src, pos).value.pvalue2 == [])
  {
    EntryHeader(src, pos);
  }

  /** A RATIONAL entry always reads at its offset. When the guard (4 bytes
      per value) fails nothing is read; when the 8*count bytes of the pairs
      are in the file, pvalue holds the numerators, pvalue2 the
      denominators, and value2 is pvalue[0]; when the guard passes but the
      pairs run past the end of the file, the read fails, and when it passes
      with a negative offset, the seek fails. */
  lemma EntryRational(src: Source, pos: nat)
    requires pos + 12 <= |src.bytes|
    requires U16At(src.bytes, pos + 2, src.order) == TYPE_RATIONAL
    requires I32At(src.bytes, pos + 4, src.order) >= 1
    ensures var count := I32At(src.bytes, pos + 4, src.order);
      var offset := I32At(src.bytes, pos + 8, src.order);
      && (offset + count * 4 > |src.bytes| ==>
            ReadEntry(src, pos).Done? && ReadEntry(src, pos).value.pvalue == [] && ReadEntry(src, pos).value.pvalue2 == [])
      && (offset >= 0 && offset + count * 8 <= |src.bytes| ==>
            ReadEntry(src, pos).Done? &&
            ReadEntry(src, pos).value.pvalue == Halves(src, offset, count, false) &&
            ReadEntry(src, pos).value.pvalue2 == Halves(src, offset, count, true) &&
            ReadEntry(src, pos).value.value2 == I32At(src.bytes, offset, src.order))
      && (offset >= 0 && offset + count * 4 <= |src.bytes| < offset + count * 8 ==>
            ReadEntry(src, pos) == Failed(ShortRead))
      && (offset < 0 && offset + count * 4 <= |src.bytes| ==>
            ReadEntry(src, pos) == Failed(NegativeSeek))
  {
    var count := I32At(src.bytes, pos + 4, src.order);
    var offset := I32At(src.bytes, pos + 8, src.order);
    EntryHeader(src, pos);
    if offset >= 0 && offset + count * 4 <= |src.bytes| {
      PairLoopReads(src, offset, count, [], []);
      if offset + count * 8 <= |src.bytes| {
        assert [] + Halves(src, offset, count, false) == Halves(src, offset, count, false);
        assert [] + Halves(src, offset, count, true) == Halves(src, offset, count, true);
        HalvesAt(src, offset, count, false, 0);
      }
    }
  }
}
