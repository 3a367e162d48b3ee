/** Tiff_Reader, the object: its fields are the session, and its methods
    move the cursor, read the IFDs and fill currentFrame step by step, as the
    source does. Each method is proved to end as the function of the
    Cursor, Entries, Frames or Sessions module that gives its meaning: same
    result, same raise, and the same fields afterwards when it returns. */
module Reader {
  import opened Outcomes
  import opened Bytes
  import opened Cursor
  import opened Entries
  import opened Frames
  import opened Sessions

  class TiffReader {
    /** The bytes of the open file; file_size is their number. */
    const data: seq<Byte>
    /** The file cursor (file.tell()). */
    var pos: nat
    var byteOrder: ByteOrder
    var firstRecordOffset: int
    var nextIfdOffset: int
    var currentFrame: Frame

    /** The fields as a session. */
    function State(): Session
      reads this
    {
      Session(pos, byteOrder, firstRecordOffset, nextIfdOffset, currentFrame)
    }

    /** The file in the session's byte order. */
    function File(): Source
      reads this
    {
      Source(data, byteOrder)
    }

    /** A reader on the given file, before open() has read it. */
    constructor (bytes: seq<Byte>)
      ensures data == bytes && State() == Initial
    {
      data := bytes;
      pos := 0;
      byteOrder := LittleEndian;
      firstRecordOffset := 0;
      nextIfdOffset := 0;
      currentFrame := DefaultFrame;
    }

    /** file.seek(p): refused for a negative p. */
    method Seek(p: int) returns (r: Result<()>)
      modifies this`pos
      ensures r == Cursor.Seek(p).ToResult()
      ensures r.Ok? ==> pos == p
    {
      if p < 0 {
        return Raised(NegativeSeek);
      }
      pos := p;
      return Ok(());
    }

    /** read_int8(n), read_int16(n), read_int32(n) for w = 1, 2, 4. */
    method ReadInts(w: Width, n: int) returns (r: Result<seq<int>>)
      modifies this`pos
      ensures var o := ReadN(File(), old(pos), w, n); r == o.ToResult() && (o.Done? ==> pos == o.state)
    {
      var o := ReadN(File(), pos, w, n);
      match o
      case Failed(e) =>
        return Raised(e);
      case Done(vs, p) =>
        pos := p;
        return Ok(vs);
    }

    /** read_intX()[0]: one value, with the read's default size. */
    method ReadOne(w: Width) returns (r: Result<int>)
      modifies this`pos
      ensures var o := ReadValue(File(), old(pos), w); r == o.ToResult() && (o.Done? ==> pos == o.state)
    {
      ReadValueIsFirstOfRead(File(), pos, w);
      var vs := ReadInts(w, w);
      if vs.Raised? {
        return Raised(vs.fault);
      }
      return Ok(vs.value[0]);
    }

    /** The inline loop of read_ifd: all slots of the field are read, the
        first count kept. */
    method ReadInline(w: Width, slots: nat, count: int) returns (r: Result<seq<int>>)
      modifies this`pos
      ensures var o := InlineLoop(File(), old(pos), w, 0, slots, count, []); r == o.ToResult() && (o.Done? ==> pos == o.state)
    {
      var pvalue: seq<int> := [];
      var i := 0;
      while i < slots
        invariant 0 <= i <= slots
        invariant InlineLoop(File(), old(pos), w, 0, slots, count, []) == InlineLoop(File(), pos, w, i, slots, count, pvalue)
      {
        var v := ReadOne(w);
        if v.Raised? {
          return Raised(v.fault);
        }
        if i < count {
          pvalue := pvalue + [v.value];
        }
        i := i + 1;
      }
      return Ok(pvalue);
    }

    /** The offset path of read_ifd for BYTE, ASCII, SHORT and LONG. */
    method ReadAtOffset(w: Width, count: int) returns (r: Result<seq<int>>)
      modifies this`pos
      ensures var o := OffsetValues(File(), old(pos), w, count); r == o.ToResult() && (o.Done? ==> pos == o.state)
    {
      var offset := ReadOne(4);
      if offset.Raised? {
        return Raised(offset.fault);
      }
      var pvalue: seq<int> := [];
      if offset.value + count * w <= |data| {
        var sought := Seek(offset.value);
        if sought.Raised? {
          return Raised(sought.fault);
        }
        var i := 0;
        while i < count
          invariant 0 <= i && (count >= 0 ==> i <= count)
          invariant ReadLoop(File(), offset.value, w, count, []) == ReadLoop(File(), pos, w, count - i, pvalue)
        {
          var v := ReadOne(w);
          if v.Raised? {
            return Raised(v.fault);
          }
          pvalue := pvalue + [v.value];
          i := i + 1;
        }
      }
      return Ok(pvalue);
    }

    /** The offset path of read_ifd for RATIONAL: numerator and denominator
        of each value, one after the other. */
    method ReadPairsAtOffset(count: int) returns (r: Result<(seq<int>, seq<int>)>)
      modifies this`pos
      ensures var o := OffsetPairs(File(), old(pos), count); r == o.ToResult() && (o.Done? ==> pos == o.state)
    {
      var offset := ReadOne(4);
      if offset.Raised? {
        return Raised(offset.fault);
      }
      var pvalue: seq<int> := [];
      var pvalue2: seq<int> := [];
      if offset.value + count * 4 <= |data| {
        var sought := Seek(offset.value);
        if sought.Raised? {
          return Raised(sought.fault);
        }
        var i := 0;
        while i < count
          invariant 0 <= i && (count >= 0 ==> i <= count)
          invariant PairLoop(File(), offset.value, count, [], []) == PairLoop(File(), pos, count - i, pvalue, pvalue2)
        {
          var a := ReadOne(4);
          if a.Raised? {
            return Raised(a.fault);
          }
          pvalue := pvalue + [a.value];
          var b := ReadOne(4);
          if b.Raised? {
            return Raised(b.fault);
          }
          pvalue2 := pvalue2 + [b.value];
          i := i + 1;
        }
      }
      return Ok((pvalue, pvalue2));
    }

    /** The type-dependent part of read_ifd, the cursor at the field. */
    method ReadField(typ: int, count: int) returns (r: Result<Field>)
      modifies this`pos
      ensures var o := FieldAt(File(), old(pos), typ, count); r == o.ToResult() && (o.Done? ==> pos == o.state)
    {
      if typ == TYPE_BYTE || typ == TYPE_ASCII {
        if count <= 0 {
          return Ok(Field([], [], 0, false));
        } else if count <= 4 {
          var vs := ReadInline(1, 4, count);
          if vs.Raised? {
            return Raised(vs.fault);
          }
          return Ok(Field(vs.value, [], 0, false));
        } else {
          var vs := ReadAtOffset(1, count);
          if vs.Raised? {
            return Raised(vs.fault);
          }
          return Ok(Field(vs.value, [], 0, true));
        }
      } else if typ == TYPE_SHORT {
        if count <= 2 {
          var vs := ReadInline(2, 2, count);
          if vs.Raised? {
            return Raised(vs.fault);
          }
          return Ok(Field(vs.value, [], 0, false));
        } else {
          var vs := ReadAtOffset(2, count);
          if vs.Raised? {
            return Raised(vs.fault);
          }
          return Ok(Field(vs.value, [], 0, true));
        }
      } else if typ == TYPE_LONG {
        if count <= 1 {
          // the single value becomes pvalue[0], as intended
          var v := ReadOne(4);
          if v.Raised? {
            return Raised(v.fault);
          }
          return Ok(Field([v.value], [], 0, false));
        } else {
          var vs := ReadAtOffset(4, count);
          if vs.Raised? {
            return Raised(vs.fault);
          }
          return Ok(Field(vs.value, [], 0, true));
        }
      } else if typ == TYPE_RATIONAL {
        var pairs := ReadPairsAtOffset(count);
        if pairs.Raised? {
          return Raised(pairs.fault);
        }
        return Ok(Field(pairs.value.0, pairs.value.1, 0, true));
      } else {
        var v := ReadOne(4);
        if v.Raised? {
          return Raised(v.fault);
        }
        return Ok(Field([], [], v.value, false));
      }
    }

    /** read_ifd: one entry from the cursor on. */
    method ReadIfd() returns (r: Result<Entry>)
      modifies this`pos
      ensures var o := ReadEntry(File(), old(pos)); r == o.ToResult() && (o.Done? ==> pos == o.state)
    {
      var tag := ReadOne(2);
      if tag.Raised? {
        return Raised(tag.fault);
      }
      var typ := ReadOne(2);
      if typ.Raised? {
        return Raised(typ.fault);
      }
      var count := ReadOne(4);
      if count.Raised? {
        return Raised(count.fault);
      }
      var start := pos;
      var f := ReadField(typ.value, count.value);
      if f.Raised? {
        return Raised(f.fault);
      }
      var fld := f.value;
      var value := if |fld.pvalue| > 0 then fld.pvalue[0] else fld.raw;
      var value2 := if |fld.pvalue2| > 0 then fld.pvalue[0] else 0;
      if fld.changepos {
        pos := start;
        pos := pos + 4;
      }
      return Ok(Entry(tag.value, typ.value, count.value, value, value2, fld.pvalue, fld.pvalue2));
    }

    /** The tag dispatch of read_next_frame for one entry, changing one
        field of currentFrame in place. */
    method ApplyEntry(e: Entry) returns (r: Result<()>)
      modifies this`currentFrame
      ensures var o := Apply(old(currentFrame), e);
        && (r.Ok? <==> o.Ok?)
        && (o.Raised? ==> r.fault == o.fault)
        && (o.Ok? ==> currentFrame == o.value)
    {
      var tag := e.tag;
      if tag == TAG_IMAGE_WIDTH {
        currentFrame := currentFrame.(width := e.value);
      } else if tag == TAG_IMAGE_LENGTH {
        currentFrame := currentFrame.(height := e.value);
      } else if tag == TAG_BITS_PER_SAMPLE {
        currentFrame := currentFrame.(bitsPerSample := e.pvalue);
      } else if tag == TAG_COMPRESSION {
        currentFrame := currentFrame.(compression := e.value);
      } else if tag == TAG_STRIP_OFFSETS {
        currentFrame := currentFrame.(stripCount := e.count);
        currentFrame := currentFrame.(stripOffsets := e.pvalue);
      } else if tag == TAG_SAMPLES_PER_PIXEL {
        currentFrame := currentFrame.(samplesPerPixel := e.value);
      } else if tag == TAG_ROWS_PER_STRIP {
        currentFrame := currentFrame.(rowsPerStrip := e.value);
      } else if tag == TAG_SAMPLE_FORMAT {
        currentFrame := currentFrame.(sampleFormat := e.value);
      } else if tag == TAG_IMAGE_DESCRIPTION {
        if e.count > 0 {
          var i := 0;
          while i < e.count
            invariant 0 <= i <= e.count
            invariant currentFrame == old(currentFrame).(description := currentFrame.description)
            invariant AppendChars(old(currentFrame).description, e.pvalue, 0, e.count)
                   == AppendChars(currentFrame.description, e.pvalue, i, e.count)
          {
            if i >= |e.pvalue| {
              return Raised(IndexOutOfRange);
            }
            var c := e.pvalue[i];
            if !(0 <= c <= MAX_CODE_POINT) {
              return Raised(BadCodePoint);
            }
            currentFrame := currentFrame.(description := currentFrame.description + [c]);
            i := i + 1;
          }
        }
      } else if tag == TAG_STRIP_BYTE_COUNTS {
        currentFrame := currentFrame.(stripCount := e.count);
        currentFrame := currentFrame.(stripByteCounts := e.pvalue);
      } else if tag == TAG_PLANAR_CONFIG {
        currentFrame := currentFrame.(planarConfiguration := e.value);
      }
      return Ok(());
    }

    /** has_next_frame. */
    predicate HasNextFrame()
      reads this
    {
      HasNext(data, State())
    }

    /** The entry loop of read_next_frame: count entries, each read and
        dispatched into currentFrame before the next. */
    method ReadEntriesInto(count: int) returns (r: Result<()>)
      modifies this`pos, this`currentFrame
      ensures var o := EntriesLoop(File(), old(pos), count, old(currentFrame));
        && (r.Ok? <==> o.Done?)
        && (o.Failed? ==> r.fault == o.fault)
        && (o.Done? ==> pos == o.state && currentFrame == o.value)
    {
      var i := 0;
      while i < count
        invariant 0 <= i && (count >= 0 ==> i <= count)
        invariant EntriesLoop(File(), old(pos), count, old(currentFrame)) == EntriesLoop(File(), pos, count - i, currentFrame)
      {
        r := ReadAndApply(count - i);
        if r.Raised? {
          return;
        }
        i := i + 1;
      }
      return Ok(());
    }

    /** One turn of the entry loop: read_ifd, then the dispatch. */
    method ReadAndApply(ghost k: int) returns (r: Result<()>)
      requires k > 0
      modifies this`pos, this`currentFrame
      ensures EntriesLoop(File(), old(pos), k, old(currentFrame))
                == if r.Raised? then Failed(r.fault) else EntriesLoop(File(), pos, k - 1, currentFrame)
    {
      var e := ReadIfd();
      if e.Raised? {
        return Raised(e.fault);
      }
      r := ApplyEntry(e.value);
    }

    /** read_next_frame. */
    method ReadNextFrame() returns (r: Result<bool>)
      modifies this`pos, this`nextIfdOffset, this`currentFrame
      ensures var o := Sessions.ReadNextFrame(data, old(State())); r == o.ToResult() && (o.Done? ==> State() == o.state)
    {
      if !HasNextFrame() {
        return Ok(false);
      }
      currentFrame := DefaultFrame;
      if !(nextIfdOffset != 0 && nextIfdOffset + 2 < |data|) {
        return Ok(false);
      }
      var sought := Seek(nextIfdOffset);
      assert sought.Ok?;
      var count := ReadOne(2);
      assert count.Ok?;
      var entries := ReadEntriesInto(count.value);
      if entries.Raised? {
        return Raised(entries.fault);
      }
      sought := Seek(nextIfdOffset + 2 + 12 * count.value);
      assert sought.Ok?;
      var next := ReadOne(4);
      if next.Raised? {
        return Raised(next.fault);
      }
      nextIfdOffset := next.value;
      return Ok(true);
    }

    /** open(): the header part, on the reader's file. The offsets of an
        empty file are left at 0. */
    method Open() returns (r: Result<()>)
      modifies this`pos, this`byteOrder, this`firstRecordOffset, this`nextIfdOffset, this`currentFrame
      ensures var o := Sessions.Open(data); r == o.ToResult() && (o.Done? ==> State() == o.state)
    {
      pos := 0;
      currentFrame := DefaultFrame;
      byteOrder := LittleEndian;
      firstRecordOffset := 0;
      nextIfdOffset := 0;
      if |data| > 0 {
        var sig := ReadInts(1, 4);
        if sig.Raised? {
          return Raised(sig.fault);
        }
        if sig.value == LITTLE_ENDIAN_SIGNATURE {
          byteOrder := LittleEndian;
        } else if sig.value == BIG_ENDIAN_SIGNATURE {
          byteOrder := BigEndian;
        }
        var first := ReadOne(4);
        if first.Raised? {
          return Raised(first.fault);
        }
        firstRecordOffset := first.value;
        nextIfdOffset := first.value;
        var more := ReadNextFrame();
        if more.Raised? {
          return Raised(more.fault);
        }
      }
      return Ok(());
    }

    /** count_frames: walks the chain from firstrecord_offset, following at
        most fuel links, and puts the cursor back. */
    method CountFrames(fuel: nat) returns (r: Result<nat>)
      modifies this`pos
      ensures var o := Sessions.CountFrames(data, old(State()), fuel); r == o.ToResult() && (o.Done? ==> State() == o.state)
    {
      var saved := pos;
      var frames: nat := 0;
      var next := firstRecordOffset;
      var left := fuel;
      while next > 0
        invariant CountLoop(File(), firstRecordOffset, 0, fuel) == CountLoop(File(), next, frames, left)
        decreases left
      {
        if left == 0 {
          return Raised(NoTermination);
        }
        var sought := Seek(next);
        assert sought.Ok?;
        var count := ReadOne(2);
        if count.Raised? {
          return Raised(count.fault);
        }
        sought := Seek(pos + count.value * 12);
        assert sought.Ok?;
        var link := ReadOne(4);
        if link.Raised? {
          return Raised(link.fault);
        }
        next := link.value;
        frames := frames + 1;
        left := left - 1;
      }
      pos := saved;
      return Ok(frames);
    }

    /** get_sample_data(buf, sample) without the display: the three loops
        of the source, one per sample size, are one loop over the width. */
    method GetSampleData(sample: int) returns (r: Result<(bool, seq<seq<int>>)>)
      modifies this`pos
      ensures var o := SampleData(data, old(State()), sample); r == o.ToResult() && (o.Done? ==> State() == o.state)
    {
      var fr := currentFrame;
      if fr.compression != COMPRESSION_NONE {
        return Ok((false, []));
      }
      if fr.samplesPerPixel > 1 && fr.planarConfiguration != PLANAR_CONFIG_PLANAR {
        return Ok((false, []));
      }
      if fr.width == 0 || fr.height == 0 {
        return Ok((false, []));
      }
      var bits := PyIndex(fr.bitsPerSample, sample);
      if bits.Raised? {
        return Raised(bits.fault);
      }
      if bits.value != 8 && bits.value != 16 && bits.value != 32 {
        return Ok((false, []));
      }
      var saved := pos;
      var tif: seq<seq<int>> := [];
      if !(fr.stripCount > 0 && |fr.stripByteCounts| > 0 && |fr.stripOffsets| > 0) {
        return Ok((false, []));
      }
      var w := SampleWidth(bits.value);
      var i := 0;
      while i < fr.stripCount
        invariant 0 <= i <= fr.stripCount
        invariant StripLoop(File(), saved, fr, w, 0, []) == StripLoop(File(), pos, fr, w, i, tif)
      {
        if i >= |fr.stripOffsets| {
          return Raised(IndexOutOfRange);
        }
        var sought := Seek(fr.stripOffsets[i]);
        if sought.Raised? {
          return Raised(sought.fault);
        }
        if i >= |fr.stripByteCounts| {
          return Raised(IndexOutOfRange);
        }
        var buf := ReadInts(w, fr.stripByteCounts[i]);
        if buf.Raised? {
          return Raised(buf.fault);
        }
        if w == 2 {
          tif := tif + [buf.value];
        }
        i := i + 1;
      }
      pos := saved;
      return Ok((true, tif));
    }
  }
}
