/** ArithmeticCoder: a binary arithmetic coder over a `precision`-bit
    interval [left, right]. It emits bits (filling each byte from its least
    significant bit). When the interval straddles the midpoint from inside
    the middle half, it does not count pending carry bits; it cuts the
    interval down to its lower part below the midpoint instead. */
module ArithmeticCoder {
  import opened NatMath
  import opened Wrappers
  import opened Bytes
  import opened BitIO
  import opened Frequency

  function Half(p: nat): nat
    requires p >= 1
  {
    Pow2(p - 1)
  }

  function Qtr(p: nat): nat
    requires p >= 2
  {
    Pow2(p - 2)
  }

  /** The interval's initial right end, `(1L << precision) - 1`. */
  function Top(p: nat): nat
  {
    Pow2(p) - 1
  }

  lemma Quarters(p: nat)
    requires 2 <= p <= 32
    ensures Pow2(p) == 2 * Half(p) && Half(p) == 2 * Qtr(p) && Qtr(p) >= 1
    ensures Pow2(p) <= TWO_32 && Qtr(p) <= 0x4000_0000
  {
    Pow2Values();
    Pow2Mono(p, 32);
    Pow2Mono(p - 2, 30);
  }

  /** A coder: the number of bits of the interval and the frequency table
      that `count` filled in. */
  datatype Coder = Coder(precision: nat, probs: seq<nat>)

  /** What the constructor asserts (2 <= precision <= 32 and at most
      2^(precision-2) symbols) and what `count` leaves in the table (no
      zero entry and a total of at most a quarter of the interval). */
  predicate Valid(cd: Coder)
  {
    && 2 <= cd.precision <= 32
    && |cd.probs| <= Qtr(cd.precision)
    && ValidTable(cd.probs, Qtr(cd.precision))
  }

  predicate InAlphabet(cd: Coder, msg: seq<nat>)
  {
    forall i :: 0 <= i < |msg| ==> msg[i] < |cd.probs|
  }

  /** `count` with this coder's threshold, a quarter of the interval. For
      messages shorter than 2^30 symbols the table is one the coder
      accepts. */
  function CountFor(alphabetSize: nat, precision: nat, message: seq<nat>): (probs: seq<nat>)
    requires 2 <= precision <= 32 && 1 <= alphabetSize <= Qtr(precision)
    requires forall i :: 0 <= i < |message| ==> message[i] < alphabetSize
    ensures |probs| == alphabetSize
    ensures |message| < 0x4000_0000 ==> Valid(Coder(precision, probs))
  {
    Quarters(precision);
    if |message| < 0x4000_0000 then
      CountFits(alphabetSize, Qtr(precision), message);
      Count(alphabetSize, Qtr(precision), message)
    else
      Count(alphabetSize, Qtr(precision), message)
  }

  // ---------------------------------------------------------------------
  // The interval
  // ---------------------------------------------------------------------

  datatype Interval = Interval(left: nat, right: nat)

  /** The state the renormalisation loop exits in: the interval contains
      the midpoint and does not lie inside the middle half. */
  predicate Settled(p: nat, l: nat, r: nat)
    requires p >= 2
  {
    l < Half(p) <= r < Pow2(p) && !(Qtr(p) <= l && r < 3 * Qtr(p))
  }

  /** The assertion `range >= qtr` made before each symbol. */
  lemma SettledWide(p: nat, l: nat, r: nat)
    requires 2 <= p <= 32 && Settled(p, l, r)
    ensures r - l + 1 > Qtr(p)
  {
    Quarters(p);
  }

  /** The interval after coding symbol c: the symbol's slot of the
      frequency table, scaled onto [l, r] by floor division. It is a
      non-empty part of [l, r]. */
  function Narrow(cd: Coder, l: nat, r: nat, c: nat): (n: Interval)
    requires Valid(cd) && c < |cd.probs|
    requires l <= r < Pow2(cd.precision) && r - l + 1 >= Sum(cd.probs)
    ensures l <= n.left <= n.right <= r
    ensures n.left == l + Scaled(CumBefore(cd.probs, c), r - l + 1, Sum(cd.probs))
    ensures n.right + 1 == l + Scaled(CumBefore(cd.probs, c) + cd.probs[c], r - l + 1, Sum(cd.probs))
  {
    var range := r - l + 1;
    var total := Sum(cd.probs);
    var cum := CumBefore(cd.probs, c);
    Quarters(cd.precision);
    SlotInTable(cd.probs, Qtr(cd.precision), c);
    ScaledSlot(cum, cd.probs[c], range, total);
    Interval(Wrap(l + cum * range / total), Wrap(l + (cum + cd.probs[c]) * range / total - 1))
  }

  // ---------------------------------------------------------------------
  // Encoding
  // ---------------------------------------------------------------------

  /** The bits a renormalisation emits and the interval and carry count it
      leaves. */
  datatype Renormalized = Renormalized(bits: seq<bool>, left: nat, right: nat, carry: nat)

  /** The encoder's renormalisation loop. An interval in the lower half
      emits 0 and one in the upper half emits 1 (each followed by the
      pending carry bits), and the interval doubles. An interval inside the
      middle half keeps only its part below the midpoint. The loop stops in
      a settled state. */
  function Renormalize(p: nat, l: nat, r: nat, carry: nat): (rn: Renormalized)
    requires 2 <= p <= 32 && l <= r < Pow2(p)
    ensures Settled(p, rn.left, rn.right)
    ensures rn.carry == if |rn.bits| == 0 then carry else 0
    decreases if r == Pow2(p) - 1 then 0 else 1,
              if r == Pow2(p) - 1 || (r == Half(p) - 1 && l >= Qtr(p)) then 0 else 1,
              if r == Pow2(p) - 1 then l else Pow2(p) - (r - l)
  {
    Quarters(p);
    var half := Half(p);
    var qtr := Qtr(p);
    if r <= half - 1 then
      var next := Renormalize(p, Wrap(l + l), Wrap(r + r + 1), 0);
      Renormalized(OutBits(false, carry) + next.bits, next.left, next.right, next.carry)
    else if l >= half then
      var l1 := Wrap(l - half);
      var r1 := Wrap(r - half);
      var next := Renormalize(p, Wrap(l1 + l1), Wrap(r1 + r1 + 1), 0);
      Renormalized(OutBits(true, carry) + next.bits, next.left, next.right, next.carry)
    else if l >= qtr && r <= 3 * qtr - 1 then
      Renormalize(p, l, half - 1, carry)
    else
      Renormalized([], l, r, carry)
  }

  /** The two closing bits (after the pending carries): 01 when the
      interval starts in the first quarter, 10 otherwise. */
  function Terminate(p: nat, l: nat, carry: nat): (bits: seq<bool>)
    requires p >= 2
    ensures |bits| == carry + 2
  {
    OutBits(if l <= Qtr(p) - 1 then false else true, carry + 1)
  }

  /** The bits coding `msg` from a settled interval on. */
  function EncodeFrom(cd: Coder, l: nat, r: nat, carry: nat, msg: seq<nat>): (bits: seq<bool>)
    requires Valid(cd) && Settled(cd.precision, l, r) && InAlphabet(cd, msg)
    ensures |bits| >= 2
    decreases |msg|
  {
    if |msg| == 0 then Terminate(cd.precision, l, carry)
    else
      SettledWide(cd.precision, l, r);
      var n := Narrow(cd, l, r, msg[0]);
      var rn := Renormalize(cd.precision, n.left, n.right, carry);
      rn.bits + EncodeFrom(cd, rn.left, rn.right, rn.carry, msg[1..])
  }

  function EncodeBits(cd: Coder, msg: seq<nat>): seq<bool>
    requires Valid(cd) && InAlphabet(cd, msg)
  {
    Quarters(cd.precision);
    EncodeFrom(cd, 0, Top(cd.precision), 0, msg)
  }

  /** `encode`: the bytes of the stream after the last bit and the flush;
      one byte per eight bits, the last one partly filled. */
  function Encode(cd: Coder, msg: seq<nat>): (out: seq<Byte>)
    requires Valid(cd) && InAlphabet(cd, msg)
    ensures |out| == (|EncodeBits(cd, msg)| + 7) / 8
    ensures forall j :: 0 <= j < |out| ==> out[j] == ByteOf(EncodeBits(cd, msg), j)
  {
    PackLayout(EncodeBits(cd, msg));
    Pack(EncodeBits(cd, msg))
  }

  // ---------------------------------------------------------------------
  // Decoding
  // ---------------------------------------------------------------------

  /** `value <<= 1; value += readBit(); value &= valueMask`: the value
      gains the next bit and keeps `p` bits. */
  function Shifted(p: nat, value: int, bit: bool): (v: nat)
    requires p <= 32
    ensures v < Pow2(p)
    ensures v == (2 * value + BitValue(bit)) % Pow2(p)
  {
    WrapMod(Wrap(2 * value) + BitValue(bit), p);
    WrapAddMod(2 * value, BitValue(bit), p);
    Wrap(Wrap(2 * value) + BitValue(bit)) % Pow2(p)
  }

  /** The decoder's symbol search: the threshold
      ((value - left + 1) * total - 1) / range, computed in Java longs and
      cast to int, then the scan for the slot holding it. A result equal
      to the alphabet size is the index at which Java would fail. */
  function DecodeSymbol(cd: Coder, l: nat, r: nat, value: nat): (c: nat)
    requires Valid(cd) && l <= r
    ensures c <= |cd.probs|
  {
    Scan(cd.probs, DecoderThreshold(value - l, r - l + 1, Sum(cd.probs)))
  }

  /** The decoder's threshold `(int) (((value - left + 1) * total - 1) /
      range)` for the offset `d` of the value from the interval's left end,
      computed in long arithmetic and cast back to int. */
  function DecoderThreshold(d: int, range: nat, total: nat): (th: nat)
    requires range >= 1
    ensures th < TWO_32
  {
    Wrap(JavaDiv((d + 1) * total - 1, range))
  }

  datatype DecoderState = DecoderState(left: nat, right: nat, value: nat, reader: BitReader)

  /** The decoder's renormalisation loop: the same interval steps as the
      encoder's, with `value` sliding one stream bit further for each
      doubling. */
  function DecRenormalize(p: nat, src: seq<Byte>, l: nat, r: nat, value: nat, rd: BitReader): (st: DecoderState)
    requires 2 <= p <= 32 && l <= r < Pow2(p) && rd.used <= 8
    ensures Settled(p, st.left, st.right) && st.reader.used <= 8
    decreases if r == Pow2(p) - 1 then 0 else 1,
              if r == Pow2(p) - 1 || (r == Half(p) - 1 && l >= Qtr(p)) then 0 else 1,
              if r == Pow2(p) - 1 then l else Pow2(p) - (r - l)
  {
    Quarters(p);
    var half := Half(p);
    var qtr := Qtr(p);
    if r <= half - 1 then
      var b := ReadBit(src, rd);
      DecRenormalize(p, src, Wrap(l + l), Wrap(r + r + 1), Shifted(p, value, b.bit), b.next)
    else if l >= half then
      var b := ReadBit(src, rd);
      var l1 := Wrap(l - half);
      var r1 := Wrap(r - half);
      DecRenormalize(p, src, Wrap(l1 + l1), Wrap(r1 + r1 + 1), Shifted(p, Wrap(value - half), b.bit), b.next)
    else if l >= qtr && r <= 3 * qtr - 1 then
      DecRenormalize(p, src, l, half - 1, value, rd)
    else
      DecoderState(l, r, value, rd)
  }

  /** `n` more symbols, or a failure where Java would index past the
      frequency table. */
  function DecodeFrom(cd: Coder, src: seq<Byte>, l: nat, r: nat, value: nat, rd: BitReader, n: nat)
    : (res: Outcome<seq<nat>>)
    requires Valid(cd) && Settled(cd.precision, l, r) && rd.used <= 8
    ensures res.Ok? ==> |res.value| == n && InAlphabet(cd, res.value)
    decreases n
  {
    if n == 0 then Ok([])
    else
      var c := DecodeSymbol(cd, l, r, value);
      if c == |cd.probs| then Failure("symbol index past the frequency table")
      else
        SettledWide(cd.precision, l, r);
        var nar := Narrow(cd, l, r, c);
        var st := DecRenormalize(cd.precision, src, nar.left, nar.right, value, rd);
        Prepend(c, DecodeFrom(cd, src, st.left, st.right, st.value, st.reader, n - 1))
  }


  /** `decode(stream, len)`: the first `precision` bits form the value,
      then `len` symbols follow. */
  function Decode(cd: Coder, src: seq<Byte>, len: nat): (res: Outcome<seq<nat>>)
    requires Valid(cd)
    ensures res.Ok? ==> |res.value| == len && InAlphabet(cd, res.value)
  {
    Quarters(cd.precision);
    var first := ReadNumber(src, FreshReader, cd.precision);
    DecodeFrom(cd, src, 0, Top(cd.precision), first.value, first.next, len)
  }

  // ---------------------------------------------------------------------
  // The encoder's bits stay inside the interval
  // ---------------------------------------------------------------------

  /** The closing bits, read as a `p`-bit number padded with zeros, lie in
      a settled interval: 01 gives the quarter point, 10 the midpoint. */
  lemma TerminateWithin(p: nat, l: nat, r: nat)
    requires 2 <= p <= 32 && Settled(p, l, r)
    ensures l <= Window(Terminate(p, l, 0), 0, p) <= r
  {
    Quarters(p);
    var b := !(l <= Qtr(p) - 1);
    var bits := Terminate(p, l, 0);
    assert bits == [b] + [!b];
    assert [!b] == [!b] + [];
    WindowCons(b, [!b], p);
    WindowCons(!b, [], p);
    WindowOfEmpty(0, p);
    if b {
      assert Window([!b], 0, p) == 0;
      assert Window(bits, 0, p) == Half(p);
    } else {
      assert Window([!b], 0, p) == Half(p);
      assert Window(bits, 0, p) == Qtr(p);
    }
  }

  /** A renormalisation widens an interval back out: when the bits after
      it lie in the interval it leaves, its own bits followed by them lie
      in the interval it started from. */
  lemma {:induction false} RenormContains(p: nat, l: nat, r: nat, t: seq<bool>)
    requires 2 <= p <= 32 && l <= r < Pow2(p)
    requires Renormalize(p, l, r, 0).left <= Window(t, 0, p) <= Renormalize(p, l, r, 0).right
    ensures l <= Window(Renormalize(p, l, r, 0).bits + t, 0, p) <= r
    decreases if r == Pow2(p) - 1 then 0 else 1,
              if r == Pow2(p) - 1 || (r == Half(p) - 1 && l >= Qtr(p)) then 0 else 1,
              if r == Pow2(p) - 1 then l else Pow2(p) - (r - l), 1
  {
    if r <= Half(p) - 1 || l >= Half(p) {
      DoublingContains(p, l, r, t);
    } else if l >= Qtr(p) && r <= 3 * Qtr(p) - 1 {
      Quarters(p);
      RenormMid(p, l, r);
      RenormContains(p, l, Half(p) - 1, t);
    } else {
      RenormDone(p, l, r);
      assert Renormalize(p, l, r, 0).bits + t == t;
    }
  }

  lemma {:induction false} DoublingContains(p: nat, l: nat, r: nat, t: seq<bool>)
    requires 2 <= p <= 32 && l <= r < Pow2(p)
    requires r <= Half(p) - 1 || l >= Half(p)
    requires Renormalize(p, l, r, 0).left <= Window(t, 0, p) <= Renormalize(p, l, r, 0).right
    ensures l <= Window(Renormalize(p, l, r, 0).bits + t, 0, p) <= r
    decreases if r == Pow2(p) - 1 then 0 else 1,
              if r == Pow2(p) - 1 || (r == Half(p) - 1 && l >= Qtr(p)) then 0 else 1,
              if r == Pow2(p) - 1 then l else Pow2(p) - (r - l), 0
  {
    Quarters(p);
    var half := Half(p);
    var bit := l >= half;
    var l2 := 2 * (if bit then l - half else l);
    var r2 := 2 * (if bit then r - half else r) + 1;
    RenormStep(p, l, r, bit, l2, r2);
    RenormContains(p, l2, r2, t);
    var x := Renormalize(p, l2, r2, 0).bits + t;
    ConcatAssoc([bit], Renormalize(p, l2, r2, 0).bits, t);
    ContainsStep(p, l, r, bit, l2, r2, x);
  }

  /** A bit prepended to a stream that lies in the doubled interval gives a
      stream lying in the interval. */
  lemma ContainsStep(p: nat, l: nat, r: nat, bit: bool, l2: nat, r2: nat, x: seq<bool>)
    requires 2 <= p <= 32 && l <= r < Pow2(p)
    requires if bit then l >= Half(p) else r <= Half(p) - 1
    requires l2 == 2 * (if bit then l - Half(p) else l) && r2 == 2 * (if bit then r - Half(p) else r) + 1
    requires l2 <= Window(x, 0, p) <= r2
    ensures l <= Window([bit] + x, 0, p) <= r
  {
    WindowCons(bit, x, p);
    DivMono(l2, Window(x, 0, p), 2);
    DivMono(Window(x, 0, p), r2, 2);
  }

  /** An interval inside the middle half is cut to its part below the
      midpoint. */
  lemma RenormMid(p: nat, l: nat, r: nat)
    requires 2 <= p <= 32 && l <= r < Pow2(p)
    requires Half(p) - 1 < r && l < Half(p) && l >= Qtr(p) && r <= 3 * Qtr(p) - 1
    ensures Renormalize(p, l, r, 0) == Renormalize(p, l, Half(p) - 1, 0)
  {
  }

  /** A settled interval leaves the loop unchanged. */
  lemma RenormDone(p: nat, l: nat, r: nat)
    requires 2 <= p <= 32 && l <= r < Pow2(p)
    requires Half(p) - 1 < r && l < Half(p) && !(l >= Qtr(p) && r <= 3 * Qtr(p) - 1)
    ensures Renormalize(p, l, r, 0) == Renormalized([], l, r, 0)
  {
  }

  /** Every code stream from a settled interval, read as a `p`-bit number,
      lies in that interval. */
  lemma {:induction false} EncodeWithin(cd: Coder, l: nat, r: nat, msg: seq<nat>)
    requires Valid(cd) && Settled(cd.precision, l, r) && InAlphabet(cd, msg)
    ensures l <= Window(EncodeFrom(cd, l, r, 0, msg), 0, cd.precision) <= r
    decreases |msg|
  {
    if |msg| == 0 {
      TerminateWithin(cd.precision, l, r);
    } else {
      SettledWide(cd.precision, l, r);
      var n := Narrow(cd, l, r, msg[0]);
      var rn := Renormalize(cd.precision, n.left, n.right, 0);
      EncodeWithin(cd, rn.left, rn.right, msg[1..]);
      RenormContains(cd.precision, n.left, n.right, EncodeFrom(cd, rn.left, rn.right, 0, msg[1..]));
    }
  }

  // ---------------------------------------------------------------------
  // The decoder follows the encoder
  // ---------------------------------------------------------------------

  /** Subtracting half before the shift changes nothing modulo 2^p. */
  lemma ShiftAfterHalf(p: nat, value: nat, bit: bool)
    requires 2 <= p <= 32
    ensures Shifted(p, Wrap(value - Half(p)), bit) == (2 * value + BitValue(bit)) % Pow2(p)
  {
    Quarters(p);
    WrapMod(value - Half(p), p);
    HalfShift(Wrap(value - Half(p)), value, BitValue(bit), Pow2(p), Half(p));
  }

  lemma HalfShift(x: int, value: int, b: int, m: nat, h: nat)
    requires m > 0 && m == 2 * h && x % m == (value - h) % m
    ensures (2 * x + b) % m == (2 * value + b) % m
  {
    DoubleCongruent(x, value - h, m);
    AddCongruent(2 * x, 2 * (value - h), b, m);
    ModAddMultiple(2 * (value - h) + b, 1, m);
  }

  /** The decoder's symbol search finds c exactly when the value lies in
      the interval the encoder narrows to for c; a value inside the
      interval never sends the search past the table. */
  lemma SymbolIff(cd: Coder, l: nat, r: nat, value: nat, c: nat)
    requires Valid(cd) && Settled(cd.precision, l, r) && l <= value <= r && c < |cd.probs|
    ensures r - l + 1 >= Sum(cd.probs)
    ensures DecodeSymbol(cd, l, r, value) < |cd.probs|
    ensures DecodeSymbol(cd, l, r, value) == c
        <==> Narrow(cd, l, r, c).left <= value <= Narrow(cd, l, r, c).right
  {
    SettledWide(cd.precision, l, r);
    Quarters(cd.precision);
    var range := r - l + 1;
    var total := Sum(cd.probs);
    var cum := CumBefore(cd.probs, c);
    var lo := Scaled(cum, range, total);
    var hi := Scaled(cum + cd.probs[c], range, total);
    DecodedIff(cd, l, r, value, c);
    var n := Narrow(cd, l, r, c);
    assert n.left == l + lo && n.right + 1 == l + hi;
  }

  /** The decoded symbol is `c` exactly when the value's offset lies in
      `c`'s scaled slot. */
  lemma DecodedIff(cd: Coder, l: nat, r: nat, value: nat, c: nat)
    requires Valid(cd) && l <= value <= r && c < |cd.probs|
    requires r - l + 1 >= Sum(cd.probs) && r < Pow2(cd.precision)
    ensures DecodeSymbol(cd, l, r, value) < |cd.probs|
    ensures DecodeSymbol(cd, l, r, value) == c
        <==> Scaled(CumBefore(cd.probs, c), r - l + 1, Sum(cd.probs)) <= value - l
             < Scaled(CumBefore(cd.probs, c) + cd.probs[c], r - l + 1, Sum(cd.probs))
  {
    assert Qtr(cd.precision) <= 0x4000_0000 by {
      Quarters(cd.precision);
    }
    var th := SlotThreshold(cd.probs, Qtr(cd.precision), value - l, r - l + 1, c);
  }

  /** The scan over the cumulative table finds `c` at the decoder's
      threshold exactly when the offset `d` lies in `c`'s scaled slot. */
  lemma SlotThreshold(probs: seq<nat>, limit: nat, d: nat, range: nat, c: nat) returns (th: nat)
    requires ValidTable(probs, limit) && limit <= 0x4000_0000 && c < |probs|
    requires d < range && Sum(probs) <= range
    ensures th == DecoderThreshold(d, range, Sum(probs))
    ensures Scan(probs, th) < |probs|
    ensures Scan(probs, th) == c
        <==> Scaled(CumBefore(probs, c), range, Sum(probs)) <= d
             < Scaled(CumBefore(probs, c) + probs[c], range, Sum(probs))
  {
    var total := Sum(probs);
    th := Threshold(d, range, total);
    var cum := CumBefore(probs, c);
    var pc := probs[c];
    assert Scan(probs, th) < |probs| by {
      ScanOffTable(probs, limit, th);
    }
    assert (Scan(probs, th) == c) == (cum <= th < cum + pc) by {
      ScanFindsSlot(probs, limit, th, c);
    }
    FloorThreshold(d, range, total, cum, cum + pc);
  }

  /** For an offset inside the range, the decoder's long division is a
      floor division whose quotient lies below the total and survives the
      cast to int. */
  lemma Threshold(d: nat, range: nat, total: nat) returns (th: nat)
    requires d < range && 1 <= total < TWO_32
    ensures th == ((d + 1) * total - 1) / range < total
    ensures DecoderThreshold(d, range, total) == th
  {
    var y := (d + 1) * total - 1;
    MulMonoLeft(1, d + 1, total);
    MulMonoLeft(d + 1, range, total);
    DivLeIff(y, range, total - 1);
    DivGeIff(y, range, 0);
    th := y / range;
  }

  /** The decoder's state `st` is in step with the encoder's `rn`: the same
      interval, the value equal to the `p` stream bits after the bits the
      encoder emitted, and the reader just past them. */
  ghost predicate InStep(p: nat, src: seq<Byte>, g: seq<bool>, j: nat, rn: Renormalized, st: DecoderState)
  {
    && st.left == rn.left && st.right == rn.right
    && st.value == Window(g, j + |rn.bits|, p)
    && st.reader == ReaderPast(src, j + |rn.bits|, p)
  }

  ghost predicate Synced(p: nat, src: seq<Byte>, g: seq<bool>, j: nat, l: nat, r: nat, value: nat, rd: BitReader)
    requires 2 <= p <= 32 && l <= r < Pow2(p) && rd.used <= 8
  {
    InStep(p, src, g, j, Renormalize(p, l, r, 0), DecRenormalize(p, src, l, r, value, rd))
  }

  /** Started with the value equal to the `p` stream bits from position j
      and the reader past them, the decoder's renormalisation stays in step
      with the encoder's. */
  lemma {:induction false} DecRenormSync(p: nat, src: seq<Byte>, g: seq<bool>, j: nat, l: nat, r: nat, value: nat, rd: BitReader)
    requires 2 <= p <= 32 && l <= r < Pow2(p) && rd.used <= 8
    requires forall k :: StreamBit(src, k) == BitAt(g, k)
    requires value == Window(g, j, p) && rd == ReaderPast(src, j, p)
    ensures Synced(p, src, g, j, l, r, value, rd)
    decreases if r == Pow2(p) - 1 then 0 else 1,
              if r == Pow2(p) - 1 || (r == Half(p) - 1 && l >= Qtr(p)) then 0 else 1,
              if r == Pow2(p) - 1 then l else Pow2(p) - (r - l), 1
  {
    if r <= Half(p) - 1 || l >= Half(p) {
      DoublingSync(p, src, g, j, l, r, value, rd);
    } else if l >= Qtr(p) && r <= 3 * Qtr(p) - 1 {
      Quarters(p);
      DecRenormSync(p, src, g, j, l, Half(p) - 1, value, rd);
      MidSynced(p, src, g, j, l, r, value, rd);
    } else {
      DoneSynced(p, src, g, j, l, r, value, rd);
    }
  }

  /** An interval inside the middle half: in step after cutting it to its
      lower part means in step before. */
  lemma MidSynced(p: nat, src: seq<Byte>, g: seq<bool>, j: nat, l: nat, r: nat, value: nat, rd: BitReader)
    requires 2 <= p <= 32 && l <= r < Pow2(p) && rd.used <= 8
    requires Half(p) - 1 < r && l < Half(p) && l >= Qtr(p) && r <= 3 * Qtr(p) - 1
    requires Synced(p, src, g, j, l, Half(p) - 1, value, rd)
    ensures Synced(p, src, g, j, l, r, value, rd)
  {
    RenormMid(p, l, r);
    DecRenormMid(p, src, l, r, value, rd);
  }

  /** A settled interval: both loops stop at once, in step. */
  lemma DoneSynced(p: nat, src: seq<Byte>, g: seq<bool>, j: nat, l: nat, r: nat, value: nat, rd: BitReader)
    requires 2 <= p <= 32 && l <= r < Pow2(p) && rd.used <= 8
    requires Half(p) - 1 < r && l < Half(p) && !(l >= Qtr(p) && r <= 3 * Qtr(p) - 1)
    requires value == Window(g, j, p) && rd == ReaderPast(src, j, p)
    ensures Synced(p, src, g, j, l, r, value, rd)
  {
    RenormDone(p, l, r);
    DecRenormDone(p, src, l, r, value, rd);
    InStepHere(p, src, g, j, Renormalize(p, l, r, 0), DecRenormalize(p, src, l, r, value, rd));
  }

  /** With no bits emitted, being in step means the same interval and the
      value and reader still at position j. */
  lemma InStepHere(p: nat, src: seq<Byte>, g: seq<bool>, j: nat, rn: Renormalized, st: DecoderState)
    requires rn.bits == [] && st.left == rn.left && st.right == rn.right
    requires st.value == Window(g, j, p) && st.reader == ReaderPast(src, j, p)
    ensures InStep(p, src, g, j, rn, st)
  {
    assert j + |rn.bits| == j;
  }

  lemma {:induction false} DoublingSync(p: nat, src: seq<Byte>, g: seq<bool>, j: nat, l: nat, r: nat, value: nat, rd: BitReader)
    requires 2 <= p <= 32 && l <= r < Pow2(p) && rd.used <= 8
    requires r <= Half(p) - 1 || l >= Half(p)
    requires forall k :: StreamBit(src, k) == BitAt(g, k)
    requires value == Window(g, j, p) && rd == ReaderPast(src, j, p)
    ensures Synced(p, src, g, j, l, r, value, rd)
    decreases if r == Pow2(p) - 1 then 0 else 1,
              if r == Pow2(p) - 1 || (r == Half(p) - 1 && l >= Qtr(p)) then 0 else 1,
              if r == Pow2(p) - 1 then l else Pow2(p) - (r - l), 0
  {
    Quarters(p);
    var half := Half(p);
    var bit := r > half - 1;
    var l2 := 2 * (if bit then l - half else l);
    var r2 := 2 * (if bit then r - half else r) + 1;
    var v, rd2 := NextBit(p, src, g, j, value, rd, bit);
    DecRenormSync(p, src, g, j + 1, l2, r2, v, rd2);
    StepSynced(p, src, g, j, l, r, value, rd, l2, r2, v, bit);
  }

  /** A doubling step of the decoder reads the next stream bit into the
      value, whether or not it first subtracted the midpoint. */
  lemma NextBit(p: nat, src: seq<Byte>, g: seq<bool>, j: nat, value: nat, rd: BitReader, bit: bool)
    returns (v: nat, rd2: BitReader)
    requires 2 <= p <= 32 && rd.used <= 8
    requires forall k :: StreamBit(src, k) == BitAt(g, k)
    requires value == Window(g, j, p) && rd == ReaderPast(src, j, p)
    ensures v == (if bit then Shifted(p, Wrap(value - Half(p)), ReadBit(src, rd).bit)
                  else Shifted(p, value, ReadBit(src, rd).bit))
    ensures rd2 == ReadBit(src, rd).next && rd2.used <= 8
    ensures v == Window(g, j + 1, p) && rd2 == ReaderPast(src, j + 1, p)
  {
    var b := ReadBit(src, rd);
    ReadBitAt(src, j + p);
    assert j + p + 1 == j + 1 + p;
    v := NextValue(p, g, j, value, b.bit, bit);
    rd2 := b.next;
  }

  /** The value after a doubling step is the window one stream bit
      further on. */
  lemma NextValue(p: nat, g: seq<bool>, j: nat, value: nat, b: bool, bit: bool) returns (v: nat)
    requires 2 <= p <= 32 && value == Window(g, j, p) && b == BitAt(g, j + p)
    ensures v == (if bit then Shifted(p, Wrap(value - Half(p)), b) else Shifted(p, value, b))
    ensures v == Window(g, j + 1, p)
  {
    var s := (2 * value + BitValue(b)) % Pow2(p);
    assert s == Window(g, j + 1, p) by {
      WindowNext(g, j, p);
    }
    if bit {
      ShiftAfterHalf(p, value, b);
    }
    v := s;
  }

  /** One doubling step: being in step after it means being in step
      before it. */
  lemma StepSynced(p: nat, src: seq<Byte>, g: seq<bool>, j: nat, l: nat, r: nat, value: nat, rd: BitReader,
                   l2: nat, r2: nat, v: nat, bit: bool)
    requires 2 <= p <= 32 && l <= r < Pow2(p) && rd.used <= 8
    requires if bit then l >= Half(p) else r <= Half(p) - 1
    requires l2 == 2 * (if bit then l - Half(p) else l) && r2 == 2 * (if bit then r - Half(p) else r) + 1
    requires v == (if bit then Shifted(p, Wrap(value - Half(p)), ReadBit(src, rd).bit)
                   else Shifted(p, value, ReadBit(src, rd).bit))
    requires l2 <= r2 < Pow2(p)
    requires Synced(p, src, g, j + 1, l2, r2, v, ReadBit(src, rd).next)
    ensures Synced(p, src, g, j, l, r, value, rd)
  {
    var next := Renormalize(p, l2, r2, 0);
    RenormStep(p, l, r, bit, l2, r2);
    DecRenormStep(p, src, l, r, value, rd, bit, l2, r2, v);
    InStepPrepend(p, src, g, j, bit, next, DecRenormalize(p, src, l2, r2, v, ReadBit(src, rd).next));
  }

  lemma InStepPrepend(p: nat, src: seq<Byte>, g: seq<bool>, j: nat, bit: bool, next: Renormalized, st: DecoderState)
    requires InStep(p, src, g, j + 1, next, st)
    ensures InStep(p, src, g, j, Renormalized([bit] + next.bits, next.left, next.right, next.carry), st)
  {
    assert j + |[bit] + next.bits| == j + 1 + |next.bits|;
  }

  /** A doubling step of the encoder's loop, carries aside. */
  lemma RenormStep(p: nat, l: nat, r: nat, bit: bool, l2: nat, r2: nat)
    requires 2 <= p <= 32 && l <= r < Pow2(p)
    requires if bit then l >= Half(p) else r <= Half(p) - 1
    requires l2 == 2 * (if bit then l - Half(p) else l) && r2 == 2 * (if bit then r - Half(p) else r) + 1
    requires l2 <= r2 < Pow2(p)
    ensures Renormalize(p, l, r, 0)
         == Renormalized([bit] + Renormalize(p, l2, r2, 0).bits, Renormalize(p, l2, r2, 0).left,
                         Renormalize(p, l2, r2, 0).right, Renormalize(p, l2, r2, 0).carry)
  {
    Quarters(p);
    assert OutBits(bit, 0) == [bit];
    if bit {
      assert Wrap(Wrap(l - Half(p)) + Wrap(l - Half(p))) == l2;
      assert Wrap(Wrap(r - Half(p)) + Wrap(r - Half(p)) + 1) == r2;
    } else {
      assert Wrap(l + l) == l2 && Wrap(r + r + 1) == r2;
    }
  }

  lemma DecRenormMid(p: nat, src: seq<Byte>, l: nat, r: nat, value: nat, rd: BitReader)
    requires 2 <= p <= 32 && l <= r < Pow2(p) && rd.used <= 8
    requires Half(p) - 1 < r && l < Half(p) && l >= Qtr(p) && r <= 3 * Qtr(p) - 1
    ensures DecRenormalize(p, src, l, r, value, rd) == DecRenormalize(p, src, l, Half(p) - 1, value, rd)
  {
  }

  lemma DecRenormDone(p: nat, src: seq<Byte>, l: nat, r: nat, value: nat, rd: BitReader)
    requires 2 <= p <= 32 && l <= r < Pow2(p) && rd.used <= 8
    requires Half(p) - 1 < r && l < Half(p) && !(l >= Qtr(p) && r <= 3 * Qtr(p) - 1)
    ensures DecRenormalize(p, src, l, r, value, rd) == DecoderState(l, r, value, rd)
  {
  }

  /** A doubling step of the decoder's loop. */
  lemma DecRenormStep(p: nat, src: seq<Byte>, l: nat, r: nat, value: nat, rd: BitReader, bit: bool,
                      l2: nat, r2: nat, v: nat)
    requires 2 <= p <= 32 && l <= r < Pow2(p) && rd.used <= 8
    requires if bit then l >= Half(p) else r <= Half(p) - 1
    requires l2 == 2 * (if bit then l - Half(p) else l) && r2 == 2 * (if bit then r - Half(p) else r) + 1
    requires v == (if bit then Shifted(p, Wrap(value - Half(p)), ReadBit(src, rd).bit)
                   else Shifted(p, value, ReadBit(src, rd).bit))
    requires l2 <= r2 < Pow2(p)
    ensures DecRenormalize(p, src, l, r, value, rd) == DecRenormalize(p, src, l2, r2, v, ReadBit(src, rd).next)
  {
    Quarters(p);
    if bit {
      assert Wrap(Wrap(l - Half(p)) + Wrap(l - Half(p))) == l2;
      assert Wrap(Wrap(r - Half(p)) + Wrap(r - Half(p)) + 1) == r2;
    } else {
      assert Wrap(l + l) == l2 && Wrap(r + r + 1) == r2;
    }
  }

  /** One symbol of the encoder, with no pending carries. */
  lemma EncodeFromStep(cd: Coder, l: nat, r: nat, msg: seq<nat>)
    requires Valid(cd) && Settled(cd.precision, l, r) && InAlphabet(cd, msg) && |msg| > 0
    ensures r - l + 1 >= Sum(cd.probs)
    ensures var n := Narrow(cd, l, r, msg[0]);
            var rn := Renormalize(cd.precision, n.left, n.right, 0);
            EncodeFrom(cd, l, r, 0, msg) == rn.bits + EncodeFrom(cd, rn.left, rn.right, 0, msg[1..])
  {
    SettledWide(cd.precision, l, r);
  }

  /** One symbol of the decoder, when the search stays in the table. */
  lemma DecodeFromStep(cd: Coder, src: seq<Byte>, l: nat, r: nat, value: nat, rd: BitReader, n: nat)
    requires Valid(cd) && Settled(cd.precision, l, r) && rd.used <= 8 && n > 0
    requires DecodeSymbol(cd, l, r, value) < |cd.probs|
    ensures r - l + 1 >= Sum(cd.probs)
    ensures var c := DecodeSymbol(cd, l, r, value);
            var nar := Narrow(cd, l, r, c);
            var st := DecRenormalize(cd.precision, src, nar.left, nar.right, value, rd);
            DecodeFrom(cd, src, l, r, value, rd, n)
              == Prepend(c, DecodeFrom(cd, src, st.left, st.right, st.value, st.reader, n - 1))
  {
    SettledWide(cd.precision, l, r);
  }

  /** At the position where the encoder coded a symbol, the stream's next
      `p` bits lie in the interval the encoder narrowed to for it. */
  lemma ValueInSlot(cd: Coder, g: seq<bool>, e: seq<bool>, l: nat, r: nat, msg: seq<nat>, value: nat)
    requires Valid(cd) && Settled(cd.precision, l, r) && InAlphabet(cd, msg) && |msg| > 0
    requires g == e + EncodeFrom(cd, l, r, 0, msg)
    requires value == Window(g, |e|, cd.precision)
    ensures r - l + 1 >= Sum(cd.probs)
    ensures Narrow(cd, l, r, msg[0]).left <= value <= Narrow(cd, l, r, msg[0]).right
  {
    EncodeFromStep(cd, l, r, msg);
    var nar := Narrow(cd, l, r, msg[0]);
    var rn := Renormalize(cd.precision, nar.left, nar.right, 0);
    var t1 := EncodeFrom(cd, rn.left, rn.right, 0, msg[1..]);
    WindowShift(e, rn.bits + t1, 0, cd.precision, |e|);
    EncodeWithin(cd, rn.left, rn.right, msg[1..]);
    RenormContains(cd.precision, nar.left, nar.right, t1);
  }

  /** At the position where the encoder coded a symbol, the decoder finds
      that symbol and its renormalisation stays in step. */
  lemma SymbolSync(cd: Coder, src: seq<Byte>, g: seq<bool>, e: seq<bool>, l: nat, r: nat, msg: seq<nat>,
                   value: nat, rd: BitReader)
    requires Valid(cd) && Settled(cd.precision, l, r) && InAlphabet(cd, msg) && |msg| > 0
    requires forall k :: StreamBit(src, k) == BitAt(g, k)
    requires g == e + EncodeFrom(cd, l, r, 0, msg)
    requires value == Window(g, |e|, cd.precision)
    requires rd == ReaderPast(src, |e|, cd.precision)
    ensures r - l + 1 >= Sum(cd.probs)
    ensures DecodeSymbol(cd, l, r, value) == msg[0]
    ensures Synced(cd.precision, src, g, |e|, Narrow(cd, l, r, msg[0]).left, Narrow(cd, l, r, msg[0]).right,
                   value, rd)
  {
    ValueInSlot(cd, g, e, l, r, msg, value);
    var nar := Narrow(cd, l, r, msg[0]);
    SymbolIff(cd, l, r, value, msg[0]);
    DecRenormSync(cd.precision, src, g, |e|, nar.left, nar.right, value, rd);
  }

  /** One symbol on both sides: the encoder's renormalised interval and
      bits `rn` are followed by the rest of its stream, the decoder's state
      `st` is in step with them, and the decoder has put out the symbol. */
  lemma Advance(cd: Coder, src: seq<Byte>, g: seq<bool>, e: seq<bool>, l: nat, r: nat, msg: seq<nat>,
                value: nat, rd: BitReader)
    returns (rn: Renormalized, st: DecoderState)
    requires Valid(cd) && Settled(cd.precision, l, r) && InAlphabet(cd, msg) && |msg| > 0
    requires forall k :: StreamBit(src, k) == BitAt(g, k)
    requires g == e + EncodeFrom(cd, l, r, 0, msg)
    requires value == Window(g, |e|, cd.precision)
    requires rd == ReaderPast(src, |e|, cd.precision)
    ensures Settled(cd.precision, rn.left, rn.right) && InAlphabet(cd, msg[1..])
    ensures g == e + rn.bits + EncodeFrom(cd, rn.left, rn.right, 0, msg[1..])
    ensures InStep(cd.precision, src, g, |e|, rn, st)
    ensures DecodeFrom(cd, src, l, r, value, rd, |msg|)
         == Prepend(msg[0], DecodeFrom(cd, src, rn.left, rn.right, st.value, st.reader, |msg[1..]|))
  {
    var nar := Narrow(cd, l, r, msg[0]);
    rn := Renormalize(cd.precision, nar.left, nar.right, 0);
    st := DecRenormalize(cd.precision, src, nar.left, nar.right, value, rd);
    assert InStep(cd.precision, src, g, |e|, rn, st) && DecodeSymbol(cd, l, r, value) == msg[0] by {
      SymbolSync(cd, src, g, e, l, r, msg, value, rd);
    }
    assert g == e + rn.bits + EncodeFrom(cd, rn.left, rn.right, 0, msg[1..]) by {
      EncodeFromStep(cd, l, r, msg);
      ConcatAssoc(e, rn.bits, EncodeFrom(cd, rn.left, rn.right, 0, msg[1..]));
    }
    assert st.left == rn.left && st.right == rn.right && |msg[1..]| == |msg| - 1;
    DecodeFromStep(cd, src, l, r, value, rd, |msg|);
  }

  /** InStep restated at the position just past the encoder's bits. */
  lemma InStepAfter(p: nat, src: seq<Byte>, g: seq<bool>, e: seq<bool>, rn: Renormalized, st: DecoderState)
    requires InStep(p, src, g, |e|, rn, st)
    ensures st.value == Window(g, |e + rn.bits|, p)
    ensures st.reader == ReaderPast(src, |e + rn.bits|, p)
  {
    assert |e + rn.bits| == |e| + |rn.bits|;
  }

  /** Decoding from the stream position where the encoder coded `msg`
      from the same interval yields `msg`. */
  lemma {:induction false} DecodeFromSync(cd: Coder, src: seq<Byte>, g: seq<bool>, e: seq<bool>, l: nat, r: nat,
                                          msg: seq<nat>, value: nat, rd: BitReader)
    requires Valid(cd) && Settled(cd.precision, l, r) && InAlphabet(cd, msg)
    requires forall k :: StreamBit(src, k) == BitAt(g, k)
    requires g == e + EncodeFrom(cd, l, r, 0, msg)
    requires value == Window(g, |e|, cd.precision)
    requires rd == ReaderPast(src, |e|, cd.precision)
    ensures DecodeFrom(cd, src, l, r, value, rd, |msg|) == Ok(msg)
    decreases |msg|
  {
    if |msg| > 0 {
      var rn, st := Advance(cd, src, g, e, l, r, msg, value, rd);
      InStepAfter(cd.precision, src, g, e, rn, st);
      DecodeFromSync(cd, src, g, e + rn.bits, rn.left, rn.right, msg[1..], st.value, st.reader);
      PrependHead(msg);
    } else {
      assert DecodeFrom(cd, src, l, r, value, rd, 0) == Ok([]);
    }
  }


  /** `decode` reads the first `precision` bits as the value, then decodes
      from the whole interval. */
  lemma {:induction false} DecodeUnfold(cd: Coder, src: seq<Byte>, n: nat)
    requires Valid(cd)
    ensures Settled(cd.precision, 0, Top(cd.precision))
    ensures Decode(cd, src, n)
         == DecodeFrom(cd, src, 0, Top(cd.precision), ReadNumber(src, FreshReader, cd.precision).value,
                       ReadNumber(src, FreshReader, cd.precision).next, n)
  {
    WholeSettled(cd.precision);
  }

  /** The decoder's initial interval [0, 2^precision - 1] is settled. */
  lemma WholeSettled(p: nat)
    requires 2 <= p <= 32
    ensures Settled(p, 0, Top(p))
  {
    Quarters(p);
  }

  /** The first number read from a stream carrying `g` is the window of
      its first `precision` bits, and leaves the reader just past them. */
  lemma FirstNumber(cd: Coder, src: seq<Byte>, g: seq<bool>, e: seq<bool>)
    requires Valid(cd) && e == []
    requires forall k :: StreamBit(src, k) == BitAt(g, k)
    ensures ReadNumber(src, FreshReader, cd.precision)
         == NumberRead(Window(g, |e|, cd.precision), ReaderPast(src, |e|, cd.precision))
  {
    FreshReaderOf(src);
    ReadNumberWindow(src, g, |e|, cd.precision);
  }

  /** Decoding what `encode` wrote, for the message's length, gives the
      message back. */
  lemma RoundTrip(cd: Coder, msg: seq<nat>)
    requires Valid(cd) && InAlphabet(cd, msg)
    ensures Decode(cd, Encode(cd, msg), |msg|) == Ok(msg)
  {
    var g := EncodeBits(cd, msg);
    var e: seq<bool> := [];
    PackedStream(g);
    DecodeUnfold(cd, Pack(g), |msg|);
    FirstNumber(cd, Pack(g), g, e);
    assert g == e + EncodeFrom(cd, 0, Top(cd.precision), 0, msg);
    var first := ReadNumber(Pack(g), FreshReader, cd.precision);
    DecodeFromSync(cd, Pack(g), g, e, 0, Top(cd.precision), msg, first.value, first.next);
  }

  /** The whole pipeline of the tests: count the message, encode it with
      the counted table, decode it. */
  lemma CountedRoundTrip(alphabetSize: nat, precision: nat, msg: seq<nat>)
    requires 2 <= precision <= 32 && 1 <= alphabetSize <= Qtr(precision)
    requires |msg| < 0x4000_0000 && forall i :: 0 <= i < |msg| ==> msg[i] < alphabetSize
    ensures var cd := Coder(precision, CountFor(alphabetSize, precision, msg));
            Valid(cd) && Decode(cd, Encode(cd, msg), |msg|) == Ok(msg)
  {
    var cd := Coder(precision, CountFor(alphabetSize, precision, msg));
    RoundTrip(cd, msg);
  }
}
