/** StripFrame, the description of one image, and the tag dispatch of
    read_next_frame that fills it from the entries of an IFD. */
module Frames {
  import opened Outcomes
  import opened Entries

  /** Tags the dispatch recognises: baseline fields of TIFF 6.0, section 8,
      and SampleFormat of section 19. */
  const TAG_IMAGE_WIDTH: int := 256
  const TAG_IMAGE_LENGTH: int := 257
  const TAG_BITS_PER_SAMPLE: int := 258
  const TAG_COMPRESSION: int := 259
  const TAG_IMAGE_DESCRIPTION: int := 270
  const TAG_STRIP_OFFSETS: int := 273
  const TAG_SAMPLES_PER_PIXEL: int := 277
  const TAG_ROWS_PER_STRIP: int := 278
  const TAG_STRIP_BYTE_COUNTS: int := 279
  const TAG_PLANAR_CONFIG: int := 284
  const TAG_SAMPLE_FORMAT: int := 339

  const COMPRESSION_NONE: int := 1
  const PLANAR_CONFIG_PLANAR: int := 2
  const SAMPLE_FORMAT_UINT: int := 1

  /** The largest value chr() accepts. */
  const MAX_CODE_POINT: int := 0x10FFFF

  /** Tags whose entry value is stored in an integer field of the frame. */
  const ScalarTags: set<int> := {TAG_IMAGE_WIDTH, TAG_IMAGE_LENGTH, TAG_COMPRESSION, TAG_SAMPLES_PER_PIXEL,
                                 TAG_ROWS_PER_STRIP, TAG_PLANAR_CONFIG, TAG_SAMPLE_FORMAT}

  /** Tags whose entry values (pvalue) are stored as a list in the frame. */
  const ListTags: set<int> := {TAG_BITS_PER_SAMPLE, TAG_STRIP_OFFSETS, TAG_STRIP_BYTE_COUNTS}

  /** The two tags that set stripcount to their entry's count. */
  const StripTags: set<int> := {TAG_STRIP_OFFSETS, TAG_STRIP_BYTE_COUNTS}

  /** StripFrame; the description is the sequence of its code points. */
  datatype Frame = Frame(width: int, height: int, compression: int, rowsPerStrip: int,
                         stripOffsets: seq<int>, stripByteCounts: seq<int>, stripCount: int,
                         samplesPerPixel: int, bitsPerSample: seq<int>, planarConfiguration: int,
                         sampleFormat: int, description: seq<int>)

  /** A fresh StripFrame. */
  const DefaultFrame: Frame := Frame(0, 0, COMPRESSION_NONE, 0, [], [], 0, 1, [], PLANAR_CONFIG_PLANAR, SAMPLE_FORMAT_UINT, [])

  /** The integer field a scalar tag sets. */
  function IntField(fr: Frame, tag: int): int
    requires tag in ScalarTags
  {
    if tag == TAG_IMAGE_WIDTH then fr.width
    else if tag == TAG_IMAGE_LENGTH then fr.height
    else if tag == TAG_COMPRESSION then fr.compression
    else if tag == TAG_SAMPLES_PER_PIXEL then fr.samplesPerPixel
    else if tag == TAG_ROWS_PER_STRIP then fr.rowsPerStrip
    else if tag == TAG_PLANAR_CONFIG then fr.planarConfiguration
    else fr.sampleFormat
  }

  /** The list field a list tag sets. */
  function ListField(fr: Frame, tag: int): seq<int>
    requires tag in ListTags
  {
    if tag == TAG_BITS_PER_SAMPLE then fr.bitsPerSample
    else if tag == TAG_STRIP_OFFSETS then fr.stripOffsets
    else fr.stripByteCounts
  }

  /** Every element is a value chr() accepts. */
  predicate CodePoints(s: seq<int>) {
    forall i :: 0 <= i < |s| ==> 0 <= s[i] <= MAX_CODE_POINT
  }

  /** `for i in range(count): description += chr(pvalue[i])`, from index i
      on: indexing pvalue past its end raises, and so does chr() of a value
      that is not a code point. */
  function AppendChars(desc: seq<int>, pvalue: seq<int>, i: nat, count: int): Result<seq<int>>
    decreases count - i
  {
    if i >= count then Ok(desc)
    else if i >= |pvalue| then Raised(IndexOutOfRange)
    else if !(0 <= pvalue[i] <= MAX_CODE_POINT) then Raised(BadCodePoint)
    else AppendChars(desc + [pvalue[i]], pvalue, i + 1, count)
  }

  /** The description loop succeeds exactly when pvalue has count values,
      all of them code points, and then appends them in order. */
  lemma {:induction false} AppendCharsAppends(desc: seq<int>, pvalue: seq<int>, i: nat, count: int)
    requires i <= count && i <= |pvalue|
    ensures AppendChars(desc, pvalue, i, count).Ok? <==> count <= |pvalue| && CodePoints(pvalue[i .. count])
    ensures AppendChars(desc, pvalue, i, count).Ok? ==> AppendChars(desc, pvalue, i, count).value == desc + pvalue[i .. count]
    decreases count - i
  {
    if i < count && i < |pvalue| {
      if 0 <= pvalue[i] <= MAX_CODE_POINT {
        AppendCharsAppends(desc + [pvalue[i]], pvalue, i + 1, count);
        if count <= |pvalue| {
          assert pvalue[i .. count] == [pvalue[i]] + pvalue[i + 1 .. count];
          assert CodePoints(pvalue[i .. count]) <==> CodePoints(pvalue[i + 1 .. count]);
        }
      } else if count <= |pvalue| {
        assert pvalue[i .. count][0] == pvalue[i];
      }
    }
  }

  /** The dispatch of one entry into the frame. Only an IMAGEDESCRIPTION
      entry can raise; StripOffsets and StripByteCounts set stripcount to
      the entry's count, and the description grows by the entry's first
      count values. */
  function Apply(fr: Frame, e: Entry): (r: Result<Frame>)
    ensures r.Ok? <==> e.tag != TAG_IMAGE_DESCRIPTION || e.count <= 0 || (e.count <= |e.pvalue| && CodePoints(e.pvalue[..e.count]))
    ensures r.Ok? ==> r.value.stripCount == if e.tag in StripTags then e.count else fr.stripCount
    ensures r.Ok? ==> r.value.description
                        == if e.tag == TAG_IMAGE_DESCRIPTION && e.count > 0 then fr.description + e.pvalue[..e.count] else fr.description
  {
    if e.tag == TAG_IMAGE_WIDTH then Ok(fr.(width := e.value))
    else if e.tag == TAG_IMAGE_LENGTH then Ok(fr.(height := e.value))
    else if e.tag == TAG_BITS_PER_SAMPLE then Ok(fr.(bitsPerSample := e.pvalue))
    else if e.tag == TAG_COMPRESSION then Ok(fr.(compression := e.value))
    else if e.tag == TAG_STRIP_OFFSETS then Ok(fr.(stripCount := e.count, stripOffsets := e.pvalue))
    else if e.tag == TAG_SAMPLES_PER_PIXEL then Ok(fr.(samplesPerPixel := e.value))
    else if e.tag == TAG_ROWS_PER_STRIP then Ok(fr.(rowsPerStrip := e.value))
    else if e.tag == TAG_SAMPLE_FORMAT then Ok(fr.(sampleFormat := e.value))
    else if e.tag == TAG_IMAGE_DESCRIPTION then
      if e.count > 0 then
        AppendCharsAppends(fr.description, e.pvalue, 0, e.count);
        match AppendChars(fr.description, e.pvalue, 0, e.count)
        case Raised(f) => Raised(f)
        case Ok(d) => Ok(fr.(description := d))
      else Ok(fr)
    else if e.tag == TAG_STRIP_BYTE_COUNTS then Ok(fr.(stripCount := e.count, stripByteCounts := e.pvalue))
    else if e.tag == TAG_PLANAR_CONFIG then Ok(fr.(planarConfiguration := e.value))
    else Ok(fr)
  }

  /** Every other recognised tag stores the entry's value (or values) in its
      own field and leaves all others alone; an unrecognised tag changes
      nothing. */
  lemma ApplySetsField(fr: Frame, e: Entry, t: int)
    requires Apply(fr, e).Ok?
    ensures t in ScalarTags ==> IntField(Apply(fr, e).value, t) == if t == e.tag then e.value else IntField(fr, t)
    ensures t in ListTags ==> ListField(Apply(fr, e).value, t) == if t == e.tag then e.pvalue else ListField(fr, t)
  {
  }

  /** The entries es dispatched in order, the first raise ending it. */
  function ApplyAll(fr: Frame, es: seq<Entry>): Result<Frame>
    decreases |es|
  {
    if es == [] then Ok(fr)
    else
      match ApplyAll(fr, es[..|es| - 1])
      case Raised(f) => Raised(f)
      case Ok(g) => Apply(g, es[|es| - 1])
  }

  /** The last entry of es whose tag is one of tags. */
  function LastWith(es: seq<Entry>, tags: set<int>): (o: Option<Entry>)
    ensures o.Some? ==> o.value in es && o.value.tag in tags
    ensures o.None? ==> forall i :: 0 <= i < |es| ==> es[i].tag !in tags
    decreases |es|
  {
    if es == [] then None
    else if es[|es| - 1].tag in tags then Some(es[|es| - 1])
    else LastWith(es[..|es| - 1], tags)
  }

  /** Later entries win: after a dispatch that succeeds, each scalar field
      holds the value of the last entry with its tag, or its value before
      the dispatch when there is none. */
  lemma {:induction false} LastWins(fr: Frame, es: seq<Entry>, t: int)
    requires t in ScalarTags
    ensures ApplyAll(fr, es).Ok? ==>
      IntField(ApplyAll(fr, es).value, t) == match LastWith(es, {t}) case None => IntField(fr, t) case Some(e) => e.value
    decreases |es|
  {
    if es != [] {
      LastWins(fr, es[..|es| - 1], t);
      if ApplyAll(fr, es[..|es| - 1]).Ok? && ApplyAll(fr, es).Ok? {
        ApplySetsField(ApplyAll(fr, es[..|es| - 1]).value, es[|es| - 1], t);
      }
    }
  }

  /** Each list field holds the values of the last entry with its tag. */
  lemma {:induction false} LastListWins(fr: Frame, es: seq<Entry>, t: int)
    requires t in ListTags
    ensures ApplyAll(fr, es).Ok? ==>
      ListField(ApplyAll(fr, es).value, t) == match LastWith(es, {t}) case None => ListField(fr, t) case Some(e) => e.pvalue
    decreases |es|
  {
    if es != [] {
      LastListWins(fr, es[..|es| - 1], t);
      if ApplyAll(fr, es[..|es| - 1]).Ok? && ApplyAll(fr, es).Ok? {
        ApplySetsField(ApplyAll(fr, es[..|es| - 1]).value, es[|es| - 1], t);
      }
    }
  }

  /** stripcount is the count of the last StripOffsets or StripByteCounts
      entry, whichever of the two came later. */
  lemma {:induction false} LastStripCountWins(fr: Frame, es: seq<Entry>)
    ensures ApplyAll(fr, es).Ok? ==>
      ApplyAll(fr, es).value.stripCount == match LastWith(es, StripTags) case None => fr.stripCount case Some(e) => e.count
    decreases |es|
  {
    if es != [] {
      LastStripCountWins(fr, es[..|es| - 1]);
    }
  }
}
