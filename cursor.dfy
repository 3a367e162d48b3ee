/** The file as the reader sees it: a fixed byte sequence, the byte order of
    the session, and a cursor that seeks and reads move. These functions give
    the meaning of file.seek and of read_int8/16/32; the cursor is their
    state. */
module Cursor {
  import opened Outcomes
  import opened Bytes

  /** The bytes of the file and the order the session decodes them in. */
  datatype Source = Source(bytes: seq<Byte>, order: ByteOrder)

  /** file.seek(p): a negative position raises, any other (even past the end) is accepted. */
  function Seek(p: int): (o: Outcome<(), nat>)
    ensures o.Done? <==> p >= 0
    ensures o.Done? ==> o.state == p
  {
    if p < 0 then Failed(NegativeSeek) else Done((), p)
  }

  /** read_int8/16/32(n) at cursor pos: file.read(n) takes n bytes (all the
      rest when n is negative, fewer at the end of the file), and unpacking
      int(n/w) values of width w succeeds only when exactly that many bytes
      came back. The byte-order prefix is applied once per read, as intended
      (UnpackAsWritten shows the format string the source builds). */
  function ReadN(src: Source, pos: nat, w: Width, n: int): (o: Outcome<seq<int>, nat>)
    ensures o.Done? ==> |o.value| == (if n >= 0 then n / w else 0)
    ensures n >= 0 && n % w == 0 ==> (o.Done? <==> n == 0 || pos + n <= |src.bytes|)
    ensures n >= 0 && n % w == 0 && o.Done? ==> o.state == pos + n
    ensures n < 0 ==> (o.Done? <==> pos >= |src.bytes|)
  {
    var avail := if pos < |src.bytes| then |src.bytes| - pos else 0;
    var got := if 0 <= n < avail then n else avail;
    var k := if n >= 0 then n / w else 0;
    DivWidth(n, w);
    if got != k * w then Failed(ShortRead)
    else if k == 0 then Done([], pos + got)
    else Done(Unpack(src.order, w, src.bytes, pos, k), pos + got)
  }

  /** The bytes file.read(n) returns at cursor pos: n of them, or all the
      rest when n is negative or fewer than n remain. */
  function FileRead(src: Source, pos: nat, n: int): (b: seq<Byte>)
    ensures |b| == (if pos >= |src.bytes| then 0 else if 0 <= n < |src.bytes| - pos then n else |src.bytes| - pos)
  {
    if pos >= |src.bytes| then []
    else if 0 <= n < |src.bytes| - pos then src.bytes[pos .. pos + n]
    else src.bytes[pos ..]
  }

  /** int(n/w): Python's conversion of the float quotient truncates toward zero. */
  function PyCount(n: int, w: Width): int {
    if n >= 0 then n / w else -((-n) / w)
  }

  /** The corrected read differs from the format string as written only in
      the big-endian reads of two or more values: for every other read it
      raises and returns exactly what struct.unpack does on the bytes
      file.read(n) returns. */
  lemma ReadNAsWritten(src: Source, pos: nat, w: Width, n: int)
    requires src.order == LittleEndian || PyCount(n, w) <= 1
    ensures ReadN(src, pos, w, n).ToResult() == UnpackAsWritten(src.order, w, PyCount(n, w), FileRead(src, pos, n))
  {
    var b := FileRead(src, pos, n);
    var c := if n >= 0 then n / w else 0;
    DivWidth(n, w);
    MulWidth(c, w);
    if |b| == c * w && c > 0 {
      UnpackSlice(src.order, w, src.bytes, pos, pos + |b|, 0, c);
      assert b == src.bytes[pos .. pos + |b|];
    }
  }

  /** Truncating division of a byte count by a width, as the solver needs it. */
  lemma DivWidth(n: int, w: Width)
    ensures n >= 0 ==> 0 <= (n / w) * w <= n < (n / w) * w + w
    ensures n >= 0 ==> (n % w == 0 <==> (n / w) * w == n)
  {
  }

  /** Value j of a successful read of n bytes is the j-th w-byte group after
      the cursor, decoded in the session's byte order. */
  lemma ReadNValue(src: Source, pos: nat, w: Width, n: int, j: nat)
    requires n >= 0 && n % w == 0 && pos + n <= |src.bytes| && j < n / w
    ensures ReadN(src, pos, w, n).Done?
    ensures pos + j * w + w <= |src.bytes|
    ensures ReadN(src, pos, w, n).value[j] == DecodeAt(src.order, w, src.bytes, pos + j * w)
  {
    UnpackAt(src.order, w, src.bytes, pos, n / w, j);
  }

  /** read_intX()[0]: one value of width w at the cursor. */
  function ReadValue(src: Source, pos: nat, w: Width): (o: Outcome<int, nat>)
  {
    if pos + w <= |src.bytes| then Done(DecodeAt(src.order, w, src.bytes, pos), pos + w)
    else Failed(ShortRead)
  }

  /** A single-value read is read_intX() with its default size, first value
      taken: it succeeds exactly when w bytes remain. */
  lemma ReadValueIsFirstOfRead(src: Source, pos: nat, w: Width)
    ensures ReadN(src, pos, w, w).Done? <==> pos + w <= |src.bytes|
    ensures ReadN(src, pos, w, w).Done? ==>
      |ReadN(src, pos, w, w).value| == 1 &&
      ReadValue(src, pos, w) == Done(ReadN(src, pos, w, w).value[0], ReadN(src, pos, w, w).state)
  {
    if pos + w <= |src.bytes| {
      ReadNValue(src, pos, w, w, 0);
    }
  }

  /** `for i in range(k): values.insert(i, read_intX()[0])`, continuing a
      loop that has collected acc so far. */
  function ReadLoop(src: Source, pos: nat, w: Width, k: int, acc: seq<int>): Outcome<seq<int>, nat>
    decreases k
  {
    if k <= 0 then Done(acc, pos)
    else
      match ReadValue(src, pos, w)
      case Failed(e) => Failed(e)
      case Done(v, p) => ReadLoop(src, p, w, k - 1, acc + [v])
  }

  /** The loop reads k consecutive values: it succeeds exactly when they all
      lie inside the file, and then appends them, unpacked, and leaves the
      cursor just after them. */
  lemma {:induction false} ReadLoopReads(src: Source, pos: nat, w: Width, k: nat, acc: seq<int>)
    ensures ReadLoop(src, pos, w, k, acc).Done? <==> k == 0 || pos + k * w <= |src.bytes|
    ensures ReadLoop(src, pos, w, k, acc).Failed? ==> ReadLoop(src, pos, w, k, acc).fault == ShortRead
    ensures pos + k * w <= |src.bytes| ==>
      ReadLoop(src, pos, w, k, acc) == Done(acc + Unpack(src.order, w, src.bytes, pos, k), pos + k * w)
    decreases k
  {
    MulWidth(k, w);
    if k == 0 {
      assert acc + [] == acc;
    } else if pos + w <= |src.bytes| {
      var v := DecodeAt(src.order, w, src.bytes, pos);
      assert ReadLoop(src, pos, w, k, acc) == ReadLoop(src, pos + w, w, k - 1, acc + [v]);
      ReadLoopReads(src, pos + w, w, k - 1, acc + [v]);
      if pos + k * w <= |src.bytes| {
        assert acc + [v] + Unpack(src.order, w, src.bytes, pos + w, k - 1) == acc + Unpack(src.order, w, src.bytes, pos, k);
      }
    }
  }

  /** The RATIONAL loop `for i in range(k): num.insert(i, read_int32()[0]);
      den.insert(i, read_int32()[0])`, continuing from num and den. */
  function PairLoop(src: Source, pos: nat, k: int, num: seq<int>, den: seq<int>): (o: Outcome<(seq<int>, seq<int>), nat>)
    ensures o.Done? ==> |o.value.0| == |num| + (if k > 0 then k else 0) && |o.value.1| == |den| + (if k > 0 then k else 0)
    decreases k
  {
    if k <= 0 then Done((num, den), pos)
    else
      match ReadValue(src, pos, 4)
      case Failed(e) => Failed(e)
      case Done(a, p) =>
        match ReadValue(src, p, 4)
        case Failed(e) => Failed(e)
        case Done(b, q) => PairLoop(src, q, k - 1, num + [a], den + [b])
  }

  /** Every other 32-bit value from pos on, k of them, starting with the
      first (the numerators) or the second (the denominators). */
  function Halves(src: Source, pos: nat, k: nat, second: bool): (vs: seq<int>)
    requires pos + 8 * k <= |src.bytes|
    ensures |vs| == k
    decreases k
  {
    if k == 0 then []
    else [I32At(src.bytes, if second then pos + 4 else pos, src.order)] + Halves(src, pos + 8, k - 1, second)
  }

  /** Pair j of the RATIONAL values: the numerator at pos+8j, the denominator at pos+8j+4. */
  lemma {:induction false} HalvesAt(src: Source, pos: nat, k: nat, second: bool, j: nat)
    requires pos + 8 * k <= |src.bytes| && j < k
    ensures Halves(src, pos, k, second)[j] == I32At(src.bytes, pos + 8 * j + (if second then 4 else 0), src.order)
    decreases k
  {
    assert Halves(src, pos, k, second) == [I32At(src.bytes, if second then pos + 4 else pos, src.order)] + Halves(src, pos + 8, k - 1, second);
    if j > 0 {
      HalvesAt(src, pos + 8, k - 1, second, j - 1);
      assert pos + 8 + 8 * (j - 1) == pos + 8 * j;
    }
  }

  /** The RATIONAL loop reads k interleaved numerator/denominator pairs: it
      succeeds exactly when all 8*k bytes lie inside the file. */
  lemma {:induction false} PairLoopReads(src: Source, pos: nat, k: nat, num: seq<int>, den: seq<int>)
    ensures PairLoop(src, pos, k, num, den).Done? <==> k == 0 || pos + 8 * k <= |src.bytes|
    ensures PairLoop(src, pos, k, num, den).Failed? ==> PairLoop(src, pos, k, num, den).fault == ShortRead
    ensures pos + 8 * k <= |src.bytes| ==>
      PairLoop(src, pos, k, num, den)
        == Done((num + Halves(src, pos, k, false), den + Halves(src, pos, k, true)), pos + 8 * k)
    decreases k
  {
    if k == 0 {
      assert num + [] == num && den + [] == den;
    } else if pos + 8 <= |src.bytes| {
      var a := I32At(src.bytes, pos, src.order);
      var b := I32At(src.bytes, pos + 4, src.order);
      assert PairLoop(src, pos, k, num, den) == PairLoop(src, pos + 8, k - 1, num + [a], den + [b]);
      PairLoopReads(src, pos + 8, k - 1, num + [a], den + [b]);
      if pos + 8 * k <= |src.bytes| {
        assert num + [a] + Halves(src, pos + 8, k - 1, false) == num + Halves(src, pos, k, false);
        assert den + [b] + Halves(src, pos + 8, k - 1, true) == den + Halves(src, pos, k, true);
      }
    }
  }
}
