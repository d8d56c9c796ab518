/** The bit-level stream of ArithmeticCoder: `outBit`/`outBits`/
    `flushStream` pack bits least-significant first into bytes, `readBit`
    unpacks them in the same order and yields 0 once the input is
    exhausted, and `readFirstNumber` assembles the first bits most
    significant first. */
module BitIO {
  import opened NatMath
  import opened Bytes

  /** Bit i of a bit string, with zeros past its end. */
  function BitAt(bits: seq<bool>, i: nat): bool
  {
    i < |bits| && bits[i]
  }

  function BitValue(b: bool): nat
  {
    if b then 1 else 0
  }

  /** What a set bit at position n adds to a number (`1 << n`). */
  function Weight(b: bool, n: nat): nat
  {
    if b then Pow2(n) else 0
  }

  /** Bit m of a number (`x & (1 << m) != 0`). */
  function TestBit(x: nat, m: nat): bool
  {
    if m == 0 then x % 2 == 1 else TestBit(x / 2, m - 1)
  }

  /** The number whose bit i is bits[base + i], for i < n. */
  function LowBits(bits: seq<bool>, base: nat, n: nat): (v: nat)
    ensures v < Pow2(n)
    decreases n
  {
    if n == 0 then 0 else BitValue(BitAt(bits, base)) + 2 * LowBits(bits, base + 1, n - 1)
  }

  /** A bit string is packed into bytes; byte j holds bits 8j..8j+7. */
  function ByteOf(bits: seq<bool>, j: nat): Byte
  {
    Pow2Byte();
    LowBits(bits, 8 * j, 8)
  }

  // ---------------------------------------------------------------------
  // Writing: outBit / outBits / flushStream
  // ---------------------------------------------------------------------

  /** `stream`, `currentByte` and `bitsUsed` of the encoder. */
  datatype BitWriter = BitWriter(out: seq<Byte>, current: nat, used: nat)

  const EmptyWriter := BitWriter([], 0, 0)

  ghost predicate WriterOk(w: BitWriter)
  {
    w.used < 8 && w.current < Pow2(w.used)
  }

  /** `outBit`: set bit `bitsUsed` of the current byte, and hand the byte to
      the stream once eight bits are in it. */
  function OutBit(w: BitWriter, bit: bool): (w': BitWriter)
    requires WriterOk(w)
    ensures WriterOk(w')
  {
    var cur := if bit then w.current + Pow2(w.used) else w.current;
    Pow2Byte();
    if w.used + 1 == 8 then BitWriter(w.out + [cur], 0, 0)
    else BitWriter(w.out, cur, w.used + 1)
  }

  /** `outBits(bit, carry)`: the bit followed by `carry` copies of its
      complement, as a bit string. */
  function OutBits(bit: bool, carry: nat): (bits: seq<bool>)
    ensures |bits| == carry + 1 && bits[0] == bit
    ensures forall i :: 1 <= i <= carry ==> bits[i] == !bit
  {
    [bit] + seq(carry, _ => !bit)
  }

  /** The writer after every bit of a bit string has gone through outBit. */
  function WriteBits(bits: seq<bool>): (w: BitWriter)
    ensures WriterOk(w)
  {
    if |bits| == 0 then EmptyWriter
    else OutBit(WriteBits(bits[..|bits| - 1]), bits[|bits| - 1])
  }

  /** `flushStream`: a partly filled byte is written too. */
  function Flush(w: BitWriter): seq<Byte>
    requires WriterOk(w)
  {
    Pow2Mono(w.used, 8);
    Pow2Byte();
    if w.used != 0 then w.out + [w.current] else w.out
  }

  /** The bytes the encoder's stream holds after writing a bit string and
      flushing. */
  function Pack(bits: seq<bool>): seq<Byte>
  {
    Flush(WriteBits(bits))
  }

  lemma {:induction false} LowBitsSnoc(bits: seq<bool>, base: nat, n: nat)
    ensures LowBits(bits, base, n + 1) == LowBits(bits, base, n) + Weight(BitAt(bits, base + n), n)
    decreases n
  {
    if n > 0 {
      LowBitsSnoc(bits, base + 1, n - 1);
    }
  }

  /** Bits beyond the end of the string contribute nothing. */
  lemma {:induction false} LowBitsPastEnd(bits: seq<bool>, base: nat, n: nat, m: nat)
    requires base + m >= |bits| && m <= n
    ensures LowBits(bits, base, n) == LowBits(bits, base, m)
    decreases n
  {
    if n > m {
      LowBitsPastEnd(bits, base, n - 1, m);
      LowBitsSnoc(bits, base, n - 1);
    }
  }

  lemma {:induction false} LowBitsPrefix(bits: seq<bool>, extra: seq<bool>, base: nat, n: nat)
    requires base + n <= |bits|
    ensures LowBits(bits + extra, base, n) == LowBits(bits, base, n)
    decreases n
  {
    if n > 0 {
      LowBitsPrefix(bits, extra, base + 1, n - 1);
    }
  }

  /** What WriteBits holds: one byte per complete group of eight bits, and
      the remaining bits in the current byte. */
  ghost predicate Layout(bits: seq<bool>, w: BitWriter)
  {
    && w.used < 8
    && |bits| == 8 * |w.out| + w.used
    && (forall j :: 0 <= j < |w.out| ==> w.out[j] == ByteOf(bits, j))
    && w.current == LowBits(bits, 8 * |w.out|, w.used)
  }

  lemma {:induction false} WriteBitsLayout(bits: seq<bool>)
    ensures Layout(bits, WriteBits(bits))
    decreases |bits|
  {
    if |bits| > 0 {
      var n := |bits| - 1;
      WriteBitsLayout(bits[..n]);
      OutBitLayout(bits[..n], WriteBits(bits[..n]), bits[n]);
      assert bits[..n] + [bits[n]] == bits;
    }
  }

  /** One outBit keeps the layout. */
  lemma OutBitLayout(prefix: seq<bool>, w: BitWriter, last: bool)
    requires WriterOk(w) && Layout(prefix, w)
    ensures Layout(prefix + [last], OutBit(w, last))
  {
    if w.used == 7 {
      OutBitFull(prefix, w, last);
    } else {
      OutBitPartial(prefix, w, last);
    }
  }

  lemma OutBitPartial(prefix: seq<bool>, w: BitWriter, last: bool)
    requires WriterOk(w) && Layout(prefix, w) && w.used < 7
    ensures Layout(prefix + [last], OutBit(w, last))
  {
    var c := if last then w.current + Pow2(w.used) else w.current;
    assert OutBit(w, last) == BitWriter(w.out, c, w.used + 1);
    assert c == LowBits(prefix + [last], 8 * |w.out|, w.used + 1) by {
      CurrentAfter(prefix, w, last);
    }
    BytesKept(prefix, last, |w.out|);
  }

  lemma OutBitFull(prefix: seq<bool>, w: BitWriter, last: bool)
    requires WriterOk(w) && Layout(prefix, w) && w.used == 7
    ensures Layout(prefix + [last], OutBit(w, last))
  {
    var c := if last then w.current + Pow2(w.used) else w.current;
    assert c == LowBits(prefix + [last], 8 * |w.out|, 8) by {
      CurrentAfter(prefix, w, last);
    }
    assert c < 256 by {
      Pow2Byte();
    }
    var cur: Byte := c;
    assert OutBit(w, last) == BitWriter(w.out + [cur], 0, 0);
    BytesKept(prefix, last, |w.out|);
    FullByte(prefix + [last], w.out, cur);
  }

  /** The eighth bit completes the current byte, which joins the stream. */
  lemma FullByte(bits: seq<bool>, out: seq<Byte>, cur: Byte)
    requires |bits| == 8 * |out| + 8
    requires forall j :: 0 <= j < |out| ==> out[j] == ByteOf(bits, j)
    requires cur == LowBits(bits, 8 * |out|, 8)
    ensures Layout(bits, BitWriter(out + [cur], 0, 0))
  {
    var o := out + [cur];
    forall j | 0 <= j < |o|
      ensures o[j] == ByteOf(bits, j)
    {
      if j == |out| {
        assert o[j] == cur;
      }
    }
  }

  lemma CurrentAfter(prefix: seq<bool>, w: BitWriter, last: bool)
    requires Layout(prefix, w)
    ensures (if last then w.current + Pow2(w.used) else w.current)
        == LowBits(prefix + [last], 8 * |w.out|, w.used + 1)
  {
    var bits := prefix + [last];
    var base := 8 * |w.out|;
    LowBitsPrefix(prefix, [last], base, w.used);
    LowBitsSnoc(bits, base, w.used);
    assert BitAt(bits, base + w.used) == last;
  }

  lemma BytesKept(prefix: seq<bool>, last: bool, count: nat)
    requires 8 * count <= |prefix|
    ensures forall j :: 0 <= j < count ==> ByteOf(prefix, j) == ByteOf(prefix + [last], j)
  {
    forall j | 0 <= j < count
      ensures ByteOf(prefix, j) == ByteOf(prefix + [last], j)
    {
      LowBitsPrefix(prefix, [last], 8 * j, 8);
    }
  }

  /** Byte j of the packed stream holds bits 8j..8j+7 of the string, and the
      stream is exactly long enough for all of them. */
  lemma PackLayout(bits: seq<bool>)
    ensures |Pack(bits)| == (|bits| + 7) / 8
    ensures forall j :: 0 <= j < |Pack(bits)| ==> Pack(bits)[j] == ByteOf(bits, j)
  {
    var w := WriteBits(bits);
    WriteBitsLayout(bits);
    if w.used != 0 {
      LowBitsPastEnd(bits, 8 * |w.out|, 8, w.used);
      DivUnique(|bits| + 7, 8, |w.out| + 1);
    } else {
      DivUnique(|bits| + 7, 8, |w.out|);
    }
  }

  // ---------------------------------------------------------------------
  // Reading: readBit / readFirstNumber
  // ---------------------------------------------------------------------

  /** Bit k of a byte stream as `readBit` delivers them: least significant
      bit of each byte first, zero past the end. */
  function StreamBit(src: seq<Byte>, k: nat): bool
  {
    k / 8 < |src| && TestBit(src[k / 8], k % 8)
  }

  lemma {:induction false} TestLowBits(bits: seq<bool>, base: nat, n: nat, m: nat)
    requires m < n
    ensures TestBit(LowBits(bits, base, n), m) == BitAt(bits, base + m)
    decreases m
  {
    if m > 0 {
      TestLowBits(bits, base + 1, n - 1, m - 1);
    }
  }

  /** readBit gives back exactly the bits the encoder wrote, then zeros. */
  lemma StreamBitOfPack(bits: seq<bool>, k: nat)
    ensures StreamBit(Pack(bits), k) == BitAt(bits, k)
  {
    PackLayout(bits);
    if k / 8 < |Pack(bits)| {
      TestLowBits(bits, 8 * (k / 8), 8, k % 8);
    }
  }

  /** `inputStream` position, `readingByte` and `readedBits` of the decoder;
      `readedBits` starts at 8 so that the first call fetches a byte. */
  datatype BitReader = BitReader(pos: nat, current: Byte, used: nat)

  const FreshReader := BitReader(0, 0, 8)

  /** A bit and the reader state after it. */
  datatype BitRead = BitRead(bit: bool, next: BitReader)

  /** `readBit`: fetch a byte when the current one is used up (returning 0,
      with nothing changed, when the stream is exhausted), then test bit
      `readedBits` and advance. */
  function ReadBit(src: seq<Byte>, rd: BitReader): (b: BitRead)
    requires rd.used <= 8
    ensures b.next.used <= 8
  {
    if rd.used == 8 && rd.pos >= |src| then BitRead(false, rd)
    else
      var r := if rd.used == 8 then BitReader(rd.pos + 1, src[rd.pos], 0) else rd;
      BitRead(TestBit(r.current, r.used), r.(used := r.used + 1))
  }

  /** The reader after delivering the first k stream bits (or, past the
      end, every bit there is): `readingByte` holds the byte the last bit
      came from, zero before any byte was fetched. */
  function ReaderOf(src: seq<Byte>, k: nat): (rd: BitReader)
    ensures rd.used <= 8
  {
    if k >= 8 * |src| then BitReader(|src|, if |src| == 0 then 0 else src[|src| - 1], 8)
    else if k % 8 == 0 then BitReader(k / 8, if k == 0 then 0 else src[k / 8 - 1], 8)
    else BitReader(k / 8 + 1, src[k / 8], k % 8)
  }

  /** The reader once the w bits from position k on have been read. */
  function ReaderPast(src: seq<Byte>, k: nat, w: nat): (rd: BitReader)
    ensures rd.used <= 8
  {
    ReaderOf(src, k + w)
  }

  /** The decoder starts as a reader that has delivered nothing. */
  lemma FreshReaderOf(src: seq<Byte>)
    ensures ReaderOf(src, 0) == FreshReader
  {
  }

  /** `readBit` delivers stream bit k and moves the reader one bit on. */
  lemma ReadBitAt(src: seq<Byte>, k: nat)
    ensures ReadBit(src, ReaderOf(src, k)) == BitRead(StreamBit(src, k), ReaderOf(src, k + 1))
  {
  }

  /** A number read from the stream together with the reader after it. */
  datatype NumberRead = NumberRead(value: nat, next: BitReader)

  /** `readFirstNumber` for a width: the bits, most significant first.
      Java ORs `1 << (width - i - 1)` into a number whose lower bits are
      still clear, which is this addition. */
  function ReadNumber(src: seq<Byte>, rd: BitReader, width: nat): (nr: NumberRead)
    requires rd.used <= 8
    ensures nr.value < Pow2(width) && nr.next.used <= 8
    decreases width
  {
    if width == 0 then NumberRead(0, rd)
    else
      var b := ReadBit(src, rd);
      var rest := ReadNumber(src, b.next, width - 1);
      NumberRead(Weight(b.bit, width - 1) + rest.value, rest.next)
  }

  // ---------------------------------------------------------------------
  // Windows: the number formed by w consecutive bits
  // ---------------------------------------------------------------------

  /** The number formed by bits k..k+w-1, most significant first. */
  function Window(bits: seq<bool>, k: nat, w: nat): (v: nat)
    ensures v < Pow2(w)
    decreases w
  {
    if w == 0 then 0 else Weight(BitAt(bits, k), w - 1) + Window(bits, k + 1, w - 1)
  }

  /** One more bit, at position `last`, at the low end of a window. */
  lemma {:induction false} WindowSnoc(bits: seq<bool>, k: nat, w: nat, last: nat)
    requires last == k + w
    ensures Window(bits, k, w + 1) == 2 * Window(bits, k, w) + BitValue(BitAt(bits, last))
    decreases w
  {
    if w > 0 {
      WindowSnoc(bits, k + 1, w - 1, last);
    }
  }

  /** A leading bit contributes its weight, the rest is the window one bit
      narrower: Window(b :: T) = b * 2^(w-1) + Window(T) / 2. */
  lemma WindowCons(b: bool, t: seq<bool>, w: nat)
    requires w >= 1
    ensures Window([b] + t, 0, w) == Weight(b, w - 1) + Window(t, 0, w) / 2
  {
    WindowShift([b], t, 0, w - 1, 1);
    WindowSnoc(t, 0, w - 1, w - 1);
    DivSplit(Window(t, 0, w - 1), BitValue(BitAt(t, w - 1)), 2);
  }

  lemma {:induction false} WindowOfEmpty(k: nat, w: nat)
    ensures Window([], k, w) == 0
    decreases w
  {
    if w > 0 {
      WindowOfEmpty(k + 1, w - 1);
    }
  }

  /** A window into the tail of a concatenation is a window into the tail,
      at the position `i` counted from the front. */
  lemma {:induction false} WindowShift(e: seq<bool>, t: seq<bool>, k: nat, w: nat, i: nat)
    requires i == |e| + k
    ensures Window(e + t, i, w) == Window(t, k, w)
    decreases w
  {
    if w > 0 {
      assert BitAt(e + t, i) == BitAt(t, k);
      WindowShift(e, t, k + 1, w - 1, i + 1);
    }
  }

  /** The decoder's `value = ((value << 1) + readBit) & mask` slides the
      window by one bit. */
  lemma WindowNext(bits: seq<bool>, k: nat, w: nat)
    requires w >= 1
    ensures (2 * Window(bits, k, w) + BitValue(BitAt(bits, k + w))) % Pow2(w) == Window(bits, k + 1, w)
  {
    WindowSnoc(bits, k, w, k + w);
    DivSplit(BitValue(BitAt(bits, k)), Window(bits, k + 1, w), Pow2(w));
  }

  /** Every bit of a packed string reads back as written. */
  lemma PackedStream(bits: seq<bool>)
    ensures forall k :: StreamBit(Pack(bits), k) == BitAt(bits, k)
  {
    forall k {
      StreamBitOfPack(bits, k);
    }
  }

  /** readFirstNumber on a stream carrying `bits` yields their window, and
      leaves the reader just past them. */
  lemma {:induction false} ReadNumberWindow(src: seq<Byte>, bits: seq<bool>, k: nat, width: nat)
    requires forall i :: StreamBit(src, i) == BitAt(bits, i)
    ensures ReadNumber(src, ReaderOf(src, k), width) == NumberRead(Window(bits, k, width), ReaderPast(src, k, width))
    decreases width
  {
    if width > 0 {
      ReadBitAt(src, k);
      ReadNumberWindow(src, bits, k + 1, width - 1);
      assert ReaderPast(src, k + 1, width - 1) == ReaderPast(src, k, width) by {
        assert k + 1 + (width - 1) == k + width;
      }
    } else {
      assert ReaderPast(src, k, 0) == ReaderOf(src, k) by {
        assert k + 0 == k;
      }
    }
  }
}
