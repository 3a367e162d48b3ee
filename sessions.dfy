/** The reader's session and the operations of Tiff_Reader as functions of
    the file's bytes and the session before them: open's header, the walk
    along the chain of IFDs (has_next_frame, read_next_frame, count_frames)
    and the strip reads of get_sample_data. */
module Sessions {
  import opened Outcomes
  import opened Bytes
  import opened Cursor
  import opened Entries
  import opened Frames

  /** The fields of a Tiff_Reader: the cursor, byte_order,
      firstrecord_offset, nextifd_offset and currentFrame. */
  datatype Session = Session(pos: nat, order: ByteOrder, first: int, next: int, frame: Frame)

  /** The file as the session reads it. */
  function Src(bytes: seq<Byte>, s: Session): Source {
    Source(bytes, s.order)
  }

  /** The session open() starts from: little-endian, no IFD, a fresh frame. */
  const Initial: Session := Session(0, LittleEndian, 0, 0, DefaultFrame)

  /** The little-endian ("II", 42) and big-endian ("MM", 42) signatures of
      TIFF 6.0, section 2, "Image File Header". */
  const LITTLE_ENDIAN_SIGNATURE: seq<int> := [73, 73, 42, 0]
  const BIG_ENDIAN_SIGNATURE: seq<int> := [77, 77, 0, 42]

  /** The byte order a signature selects; any other signature keeps the
      little-endian default. */
  function SignatureOrder(sig: seq<int>): (order: ByteOrder)
    ensures order == BigEndian <==> sig == BIG_ENDIAN_SIGNATURE
  {
    if sig == LITTLE_ENDIAN_SIGNATURE then LittleEndian
    else if sig == BIG_ENDIAN_SIGNATURE then BigEndian
    else LittleEndian
  }

  /** open() on a file of the given bytes: an empty file leaves the initial
      session; otherwise the 4-byte signature picks the byte order, the
      first IFD offset follows it, and the first frame is read. */
  function Open(bytes: seq<Byte>): (o: Outcome<(), Session>)
    ensures |bytes| == 0 ==> o == Done((), Initial)
    ensures o.Done? && |bytes| > 0 ==> |bytes| >= 8
  {
    if |bytes| == 0 then Done((), Initial)
    else
      match ReadN(Source(bytes, LittleEndian), 0, 1, 4)
      case Failed(e) => Failed(e)
      case Done(sig, p) =>
        var order := SignatureOrder(sig);
        match ReadValue(Source(bytes, order), p, 4)
        case Failed(e) => Failed(e)
        case Done(first, q) =>
          match ReadNextFrame(bytes, Session(q, order, first, first, DefaultFrame))
          case Failed(e) => Failed(e)
          case Done(_, s) => Done((), s)
  }

  /** A file of at least 8 bytes is opened in the order of its signature,
      with the first IFD offset taken from bytes 4 to 7. */
  lemma OpenReadsHeader(bytes: seq<Byte>)
    requires |bytes| >= 8
    ensures var order := if bytes[..4] == BIG_ENDIAN_SIGNATURE then BigEndian else LittleEndian;
      var first := I32At(bytes, 4, order);
      Open(bytes) == match ReadNextFrame(bytes, Session(8, order, first, first, DefaultFrame))
                     case Failed(e) => Failed(e)
                     case Done(_, s) => Done((), s)
  {
    var src := Source(bytes, LittleEndian);
    ReadNValue(src, 0, 1, 4, 0);
    ReadNValue(src, 0, 1, 4, 1);
    ReadNValue(src, 0, 1, 4, 2);
    ReadNValue(src, 0, 1, 4, 3);
    assert ReadN(src, 0, 1, 4).value == bytes[..4];
  }

  /** A file shorter than its 8-byte header cannot be opened. */
  lemma OpenShortFile(bytes: seq<Byte>)
    requires 0 < |bytes| < 8
    ensures Open(bytes) == Failed(ShortRead)
  {
  }

  /** has_next_frame: the next IFD offset is inside the file. */
  predicate HasNext(bytes: seq<Byte>, s: Session) {
    0 < s.next < |bytes|
  }

  /** The body of read_next_frame's entry loop: each entry is read and
      dispatched into the frame before the next one is read. */
  function EntriesLoop(src: Source, pos: nat, k: int, fr: Frame): Outcome<Frame, nat>
    decreases k, 1
  {
    if k <= 0 then Done(fr, pos) else EntryStep(src, pos, k, fr)
  }

  /** One turn of the entry loop: the entry at pos read and dispatched into
      fr, then the remaining k - 1 turns. */
  function EntryStep(src: Source, pos: nat, k: int, fr: Frame): Outcome<Frame, nat>
    requires k > 0
    decreases k, 0
  {
    match ReadEntry(src, pos)
    case Failed(e) => Failed(e)
    case Done(e, p) =>
      match Apply(fr, e)
      case Raised(f) => Failed(f)
      case Ok(g) => EntriesLoop(src, p, k - 1, g)
  }

  /** The k entries from pos on, read one after the other. */
  function ReadEntries(src: Source, pos: nat, k: int, acc: seq<Entry>): Outcome<seq<Entry>, nat>
    decreases k
  {
    if k <= 0 then Done(acc, pos)
    else
      match ReadEntry(src, pos)
      case Failed(e) => Failed(e)
      case Done(e, p) => ReadEntries(src, p, k - 1, acc + [e])
  }

  /** When the entry loop succeeds, its frame is the dispatch, in order, of
      the entries it read, and the cursor ends after the last of them. */
  lemma {:induction false} EntriesDispatched(src: Source, pos: nat, k: int, fr0: Frame, acc: seq<Entry>, fr: Frame)
    requires ApplyAll(fr0, acc) == Ok(fr)
    ensures EntriesLoop(src, pos, k, fr).Done? ==>
      && ReadEntries(src, pos, k, acc).Done?
      && ReadEntries(src, pos, k, acc).state == EntriesLoop(src, pos, k, fr).state
      && ApplyAll(fr0, ReadEntries(src, pos, k, acc).value) == Ok(EntriesLoop(src, pos, k, fr).value)
    decreases k
  {
    if k > 0 {
      assert EntriesLoop(src, pos, k, fr) == EntryStep(src, pos, k, fr);
    }
    if k > 0 && ReadEntry(src, pos).Done? {
      var e := ReadEntry(src, pos).value;
      if Apply(fr, e).Ok? {
        assert (acc + [e])[..|acc + [e]| - 1] == acc;
        EntriesDispatched(src, ReadEntry(src, pos).state, k - 1, fr0, acc + [e], Apply(fr, e).value);
      }
    }
  }

  /** read_next_frame. Without a next frame nothing changes; otherwise the
      frame is reset first and, when the IFD's entry count is inside the
      file, the entries are dispatched into it and the next IFD offset is
      read from after the entries. */
  function ReadNextFrame(bytes: seq<Byte>, s: Session): (o: Outcome<bool, Session>)
    ensures o.Done? ==> (o.value <==> 0 < s.next && s.next + 2 < |bytes|)
    ensures o.Done? && !HasNext(bytes, s) ==> o.state == s
    ensures o.Done? && HasNext(bytes, s) && !o.value ==> o.state == s.(frame := DefaultFrame)
    ensures o.Done? ==> o.state.order == s.order && o.state.first == s.first
  {
    if !HasNext(bytes, s) then Done(false, s)
    else if !(s.next != 0 && s.next + 2 < |bytes|) then Done(false, s.(frame := DefaultFrame))
    else
      var src := Src(bytes, s);
      match ReadValue(src, s.next, 2)
      case Failed(e) => Failed(e)
      case Done(count, p) =>
        match EntriesLoop(src, p, count, DefaultFrame)
        case Failed(e) => Failed(e)
        case Done(fr, _) =>
          match Seek(s.next + 2 + 12 * count)
          case Failed(e) => Failed(e)
          case Done(_, q) =>
            match ReadValue(src, q, 4)
            case Failed(e) => Failed(e)
            case Done(next, r) => Done(true, s.(pos := r, next := next, frame := fr))
  }

  /** The link of the IFD at off: the 32-bit offset stored after its entry
      count and its 12-byte entries, and the cursor after it. */
  function Link(src: Source, off: nat): Outcome<int, nat> {
    match ReadValue(src, off, 2)
    case Failed(e) => Failed(e)
    case Done(count, p) =>
      match Seek(off + 2 + 12 * count)
      case Failed(e) => Failed(e)
      case Done(_, q) => ReadValue(src, q, 4)
  }

  /** read_next_frame follows the chain: after a frame is read,
      nextifd_offset is the link of the IFD it came from. */
  lemma NextFrameFollowsLink(bytes: seq<Byte>, s: Session)
    requires ReadNextFrame(bytes, s).Done? && ReadNextFrame(bytes, s).value
    ensures s.next > 0
    ensures Link(Src(bytes, s), s.next) == Done(ReadNextFrame(bytes, s).state.next, ReadNextFrame(bytes, s).state.pos)
  {
  }

  /** The frame read_next_frame builds is the in-order dispatch, into a
      fresh frame, of the entries of the IFD at nextifd_offset. */
  lemma NextFrameDispatches(bytes: seq<Byte>, s: Session)
    requires ReadNextFrame(bytes, s).Done? && ReadNextFrame(bytes, s).value
    ensures s.next > 0 && s.next + 2 <= |bytes|
    ensures var src := Src(bytes, s);
      var es := ReadEntries(src, s.next + 2, U16At(bytes, s.next, s.order), []);
      es.Done? && ApplyAll(DefaultFrame, es.value) == Ok(ReadNextFrame(bytes, s).state.frame)
  {
    var src := Src(bytes, s);
    EntriesDispatched(src, s.next + 2, U16At(bytes, s.next, s.order), DefaultFrame, [], DefaultFrame);
  }

  /** The loop of count_frames from next_offset on, having counted frames:
      it stops at an offset that is not positive; fuel bounds the number of
      links it may follow. */
  function CountLoop(src: Source, next: int, frames: nat, fuel: nat): Result<nat>
    decreases fuel
  {
    if next <= 0 then Ok(frames)
    else if fuel == 0 then Raised(NoTermination)
    else
      match Link(src, next)
      case Failed(e) => Raised(e)
      case Done(n, _) => CountLoop(src, n, frames + 1, fuel - 1)
  }

  /** count_frames: the number of IFDs from firstrecord_offset on; the
      session is left as it was. */
  function CountFrames(bytes: seq<Byte>, s: Session, fuel: nat): (o: Outcome<nat, Session>)
    ensures o.Done? ==> o.state == s
  {
    match CountLoop(Src(bytes, s), s.first, 0, fuel)
    case Raised(e) => Failed(e)
    case Ok(n) => Done(n, s)
  }

  /** offs is the chain of IFD offsets from start: each is positive, and its
      link, which must be readable, is the next one; the last link is not
      positive. */
  predicate IsChain(src: Source, start: int, offs: seq<int>)
    decreases |offs|
  {
    if offs == [] then start <= 0
    else start > 0 && offs[0] == start && Link(src, start).Done? && IsChain(src, Link(src, start).value, offs[1..])
  }

  /** Every count the loop returns is the length of a chain it walked. */
  lemma {:induction false} CountIsChainLength(src: Source, start: int, frames: nat, fuel: nat)
    ensures CountLoop(src, start, frames, fuel).Ok? ==>
      exists offs :: IsChain(src, start, offs) && CountLoop(src, start, frames, fuel).value == frames + |offs| && |offs| <= fuel
    decreases fuel
  {
    if start <= 0 {
      assert IsChain(src, start, []);
    } else if fuel > 0 && Link(src, start).Done? {
      var n := Link(src, start).value;
      CountIsChainLength(src, n, frames + 1, fuel - 1);
      if CountLoop(src, n, frames + 1, fuel - 1).Ok? {
        var rest :| IsChain(src, n, rest) && CountLoop(src, n, frames + 1, fuel - 1).value == frames + 1 + |rest| && |rest| <= fuel - 1;
        assert ([start] + rest)[1..] == rest;
        assert IsChain(src, start, [start] + rest);
      }
    }
  }

  /** A chain within the fuel bound is counted in full. */
  lemma {:induction false} CountFindsChain(src: Source, start: int, offs: seq<int>, frames: nat, fuel: nat)
    requires IsChain(src, start, offs) && |offs| <= fuel
    ensures CountLoop(src, start, frames, fuel) == Ok(frames + |offs|)
    decreases |offs|
  {
    if offs != [] {
      CountFindsChain(src, Link(src, start).value, offs[1..], frames + 1, fuel - 1);
    }
  }

  /** The chain from a start offset is unique, so the count is the number of
      IFDs reached. */
  lemma {:induction false} ChainUnique(src: Source, start: int, a: seq<int>, b: seq<int>)
    requires IsChain(src, start, a) && IsChain(src, start, b)
    ensures a == b
    decreases |a|
  {
    if a != [] {
      ChainUnique(src, Link(src, start).value, a[1..], b[1..]);
      assert a == [a[0]] + a[1..] && b == [b[0]] + b[1..];
    }
  }

  /** xs[i] with Python's indexing: negative i counts from the end. */
  function PyIndex(xs: seq<int>, i: int): (r: Result<int>)
    ensures r.Ok? <==> -|xs| <= i < |xs|
    ensures r.Ok? ==> r.value in xs
  {
    if 0 <= i < |xs| then Ok(xs[i])
    else if -|xs| <= i < 0 then Ok(xs[|xs| + i])
    else Raised(IndexOutOfRange)
  }

  /** The frames get_sample_data refuses before looking at the sample:
      compressed, interleaved with several samples, or empty. */
  predicate Unsupported(fr: Frame) {
    || fr.compression != COMPRESSION_NONE
    || (fr.samplesPerPixel > 1 && fr.planarConfiguration != PLANAR_CONFIG_PLANAR)
    || fr.width == 0 || fr.height == 0
  }

  /** The strip layout get_sample_data needs: a strip count and both lists
      non-empty. */
  predicate HasStrips(fr: Frame) {
    fr.stripCount > 0 && |fr.stripByteCounts| > 0 && |fr.stripOffsets| > 0
  }

  /** The read function used for a sample size of bits bits. */
  function SampleWidth(bits: int): Width {
    if bits == 8 then 1 else if bits == 16 then 2 else 4
  }

  /** The loop over the strips from strip i on: seek to stripoffsets[i]
      and read stripbytecounts[i] bytes; only the 16-bit reads are kept. */
  function StripLoop(src: Source, pos: nat, fr: Frame, w: Width, i: nat, acc: seq<seq<int>>): Outcome<seq<seq<int>>, nat>
    decreases fr.stripCount - i
  {
    if i >= fr.stripCount then Done(acc, pos)
    else if i >= |fr.stripOffsets| then Failed(IndexOutOfRange)
    else
      match Seek(fr.stripOffsets[i])
      case Failed(e) => Failed(e)
      case Done(_, p) =>
        if i >= |fr.stripByteCounts| then Failed(IndexOutOfRange)
        else
          match ReadN(src, p, w, fr.stripByteCounts[i])
          case Failed(e) => Failed(e)
          case Done(buf, q) => StripLoop(src, q, fr, w, i + 1, if w == 2 then acc + [buf] else acc)
  }

  /** Strip j can be read: it has an offset in the file's range of seeks, a
      byte count, and the read of that many bytes succeeds. */
  predicate StripReadable(src: Source, fr: Frame, w: Width, j: nat) {
    && j < |fr.stripOffsets| && j < |fr.stripByteCounts| && fr.stripOffsets[j] >= 0
    && ReadN(src, fr.stripOffsets[j], w, fr.stripByteCounts[j]).Done?
  }

  /** The strip loop succeeds exactly when every remaining strip can be
      read; only the 16-bit loop keeps what it reads. */
  lemma {:induction false} StripLoopSucceeds(src: Source, pos: nat, fr: Frame, w: Width, i: nat, acc: seq<seq<int>>)
    ensures StripLoop(src, pos, fr, w, i, acc).Done? <==> forall j :: i <= j < fr.stripCount ==> StripReadable(src, fr, w, j)
    ensures StripLoop(src, pos, fr, w, i, acc).Done? && w != 2 ==> StripLoop(src, pos, fr, w, i, acc).value == acc
    decreases fr.stripCount - i
  {
    if i < fr.stripCount {
      if StripReadable(src, fr, w, i) {
        var o := ReadN(src, fr.stripOffsets[i], w, fr.stripByteCounts[i]);
        StripLoopSucceeds(src, o.state, fr, w, i + 1, if w == 2 then acc + [o.value] else acc);
      } else {
        assert !StripLoop(src, pos, fr, w, i, acc).Done?;
      }
    }
  }

  /** A 16-bit strip loop that succeeds yields the strips in order, each
      the values read at its offset. */
  lemma {:induction false} StripLoopReads(src: Source, pos: nat, fr: Frame, i: nat, acc: seq<seq<int>>)
    requires StripLoop(src, pos, fr, 2, i, acc).Done?
    ensures var tif := StripLoop(src, pos, fr, 2, i, acc).value;
      && |tif| == |acc| + (if i < fr.stripCount then fr.stripCount - i else 0)
      && tif[..|acc|] == acc
      && forall j :: i <= j < fr.stripCount ==>
           StripReadable(src, fr, 2, j) && tif[|acc| + (j - i)] == ReadN(src, fr.stripOffsets[j], 2, fr.stripByteCounts[j]).value
    decreases fr.stripCount - i
  {
    if i < fr.stripCount {
      var o := ReadN(src, fr.stripOffsets[i], 2, fr.stripByteCounts[i]);
      var acc' := acc + [o.value];
      assert StripLoop(src, pos, fr, 2, i, acc) == StripLoop(src, o.state, fr, 2, i + 1, acc');
      StripLoopReads(src, o.state, fr, i + 1, acc');
      var tif := StripLoop(src, pos, fr, 2, i, acc).value;
      assert tif[..|acc'|] == acc';
      assert tif[..|acc|] == acc'[..|acc|];
      assert tif[|acc|] == acc'[|acc|];
    }
  }

  /** get_sample_data(buf, sample), the display left out: refusals return
      false and read nothing, the sample's bits are looked up with Python
      indexing, and a supported frame has its strips read and the cursor
      put back. The result is the flag and the 16-bit strips. */
  function SampleData(bytes: seq<Byte>, s: Session, sample: int): (o: Outcome<(bool, seq<seq<int>>), Session>)
    ensures o.Done? ==> o.state == s
    ensures o.Done? && !o.value.0 ==> o.value.1 == []
  {
    var fr := s.frame;
    if Unsupported(fr) then Done((false, []), s)
    else
      match PyIndex(fr.bitsPerSample, sample)
      case Raised(e) => Failed(e)
      case Ok(bits) =>
        if bits != 8 && bits != 16 && bits != 32 then Done((false, []), s)
        else if !HasStrips(fr) then Done((false, []), s)
        else
          match StripLoop(Src(bytes, s), s.pos, fr, SampleWidth(bits), 0, [])
          case Failed(e) => Failed(e)
          case Done(tif, _) => Done((true, tif), s)
  }

  /** get_sample_data returns false exactly for an unsupported frame, a
      sample size other than 8, 16 or 32 bits, or a frame without strips; a
      sample index outside bitspersample raises. */
  lemma SampleDataRefuses(bytes: seq<Byte>, s: Session, sample: int)
    ensures !Unsupported(s.frame) && !(-|s.frame.bitsPerSample| <= sample < |s.frame.bitsPerSample|) ==>
      SampleData(bytes, s, sample) == Failed(IndexOutOfRange)
    ensures SampleData(bytes, s, sample).Done? ==>
      (!SampleData(bytes, s, sample).value.0 <==>
        || Unsupported(s.frame)
        || PyIndex(s.frame.bitsPerSample, sample).value !in {8, 16, 32}
        || !HasStrips(s.frame))
  {
  }

  /** A fresh StripFrame, as read_next_frame leaves it when no entry sets a
      field, is refused by get_sample_data: its size is 0 by 0 and it has no
      strips. Its planar default means that once the size is set, a frame
      with several samples per pixel and no PlanarConfiguration entry is
      not refused as interleaved. */
  lemma FreshFrameRefused(bytes: seq<Byte>, s: Session, sample: int, w: int, h: int, n: int)
    requires s.frame == DefaultFrame
    ensures SampleData(bytes, s, sample) == Done((false, []), s)
    ensures w != 0 && h != 0 ==> !Unsupported(DefaultFrame.(width := w, height := h, samplesPerPixel := n))
  {
  }

  /** A supported frame with 16-bit samples succeeds exactly when every
      strip can be read. */
  lemma SampleDataSucceeds(bytes: seq<Byte>, s: Session, sample: int)
    requires !Unsupported(s.frame) && HasStrips(s.frame)
    requires PyIndex(s.frame.bitsPerSample, sample) == Ok(16)
    ensures SampleData(bytes, s, sample).Done? <==> forall j :: 0 <= j < s.frame.stripCount ==> StripReadable(Src(bytes, s), s.frame, 2, j)
  {
    StripLoopSucceeds(Src(bytes, s), s.pos, s.frame, 2, 0, []);
  }

  /** It then yields one entry per strip, in order: the 16-bit values of
      stripbytecounts[i] bytes at stripoffsets[i]. */
  lemma SampleDataReadsStrips(bytes: seq<Byte>, s: Session, sample: int)
    requires !Unsupported(s.frame) && HasStrips(s.frame)
    requires PyIndex(s.frame.bitsPerSample, sample) == Ok(16)
    requires SampleData(bytes, s, sample).Done?
    ensures var tif := SampleData(bytes, s, sample).value.1;
      && SampleData(bytes, s, sample).value.0
      && |tif| == s.frame.stripCount
      && forall j :: 0 <= j < s.frame.stripCount ==>
           StripReadable(Src(bytes, s), s.frame, 2, j) &&
           tif[j] == ReadN(Src(bytes, s), s.frame.stripOffsets[j], 2, s.frame.stripByteCounts[j]).value
  {
    assert SampleWidth(16) == 2;
    StripsRead(Src(bytes, s), s.pos, s.frame);
  }

  /** The 16-bit strip loop from the first strip, when it succeeds. */
  lemma StripsRead(src: Source, pos: nat, fr: Frame)
    requires StripLoop(src, pos, fr, 2, 0, []).Done? && fr.stripCount >= 0
    ensures var tif := StripLoop(src, pos, fr, 2, 0, []).value;
      && |tif| == fr.stripCount
      && forall j :: 0 <= j < fr.stripCount ==>
           StripReadable(src, fr, 2, j) && tif[j] == ReadN(src, fr.stripOffsets[j], 2, fr.stripByteCounts[j]).value
  {
    StripLoopReads(src, pos, fr, 0, []);
  }
}
