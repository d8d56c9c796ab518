/** RangeCoder: a 31-bit range coder with carry propagation. The interval
    [low, low + range) lives in 31 bits; a carry out of them shows up as
    bit 31 of `low`. Bytes leave from the top of `low`, but the last byte
    that a carry could still change is held back in `nextByte`, together
    with a run of `carry` bytes 0xFF behind it: a later carry turns them
    into nextByte + 1 followed by zeros, no carry turns them into nextByte
    followed by the 0xFF bytes. */
module RangeCoder {
  import opened NatMath
  import opened Wrappers
  import opened Bytes
  import opened Frequency

  /** `MIN_RANGE = 1 << (32 - 1 - 8)`. */
  const MIN_RANGE: nat := 0x80_0000

  /** `TOP = 1 << (32 - 1)`; `lowMask = TOP - 1` keeps the 31 bits of the
      interval, so `low & lowMask` is `low % TOP`. */
  const TOP: nat := 0x8000_0000

  /** A coder: the frequency table that `count` filled in. */
  datatype Coder = Coder(probs: seq<nat>)

  /** What the constructor asserts (at most MIN_RANGE symbols) and what
      `count` leaves in the table (no zero entry, a total of at most
      MIN_RANGE). */
  predicate Valid(cd: Coder)
  {
    |cd.probs| <= MIN_RANGE && ValidTable(cd.probs, MIN_RANGE)
  }

  predicate InAlphabet(cd: Coder, msg: seq<nat>)
  {
    forall i :: 0 <= i < |msg| ==> msg[i] < |cd.probs|
  }

  /** `count` with this coder's threshold MIN_RANGE. For messages shorter
      than 2^30 symbols the table is one the coder accepts. */
  function CountFor(alphabetSize: nat, message: seq<nat>): (probs: seq<nat>)
    requires 1 <= alphabetSize <= MIN_RANGE
    requires forall i :: 0 <= i < |message| ==> message[i] < alphabetSize
    ensures |probs| == alphabetSize
    ensures |message| < 0x4000_0000 ==> Valid(Coder(probs))
  {
    if |message| < 0x4000_0000 then
      CountFits(alphabetSize, MIN_RANGE, message);
      Count(alphabetSize, MIN_RANGE, message)
    else
      Count(alphabetSize, MIN_RANGE, message)
  }

  // ---------------------------------------------------------------------
  // The interval
  // ---------------------------------------------------------------------

  /** The registers `low` and `range`, read as unsigned 32-bit numbers. */
  datatype Interval = Interval(low: nat, range: nat)

  /** `low = 0; range = 1 << 31`. */
  const Start := Interval(0, TOP)

  /** The registers between steps of both loops: a 32-bit low and a
      non-empty range of at most 2^31. */
  predicate Regs(iv: Interval)
  {
    iv.low < TWO_32 && 1 <= iv.range <= TOP
  }

  /** The registers a symbol is coded in: the renormalisation loop has
      left the range above MIN_RANGE. */
  predicate Wide(iv: Interval)
  {
    Regs(iv) && iv.range > MIN_RANGE
  }

  /** The step for symbol c, shared by `encode` and `decode`:
      `low += sumProbs[c] * range / totalCount; range = probs[c] * range /
      totalCount` in 64-bit arithmetic, cast back to int. The new range is
      non-empty, and when the interval does not reach past 2^32 nothing
      wraps: the new interval starts at the scaled start of c's slot and
      ends no later than the scaled end of that slot. */
  function Narrow(cd: Coder, iv: Interval, c: nat): (n: Interval)
    requires Valid(cd) && Wide(iv) && c < |cd.probs|
    ensures Regs(n) && n.range <= iv.range
    ensures iv.low + iv.range <= TWO_32 ==>
      && n.low == iv.low + Scaled(CumBefore(cd.probs, c), iv.range, Sum(cd.probs))
      && n.low + n.range <= iv.low + Scaled(CumBefore(cd.probs, c) + cd.probs[c], iv.range, Sum(cd.probs))
      && n.low + n.range <= iv.low + iv.range
  {
    SlotInTable(cd.probs, MIN_RANGE, c);
    Slot(iv.low, iv.range, CumBefore(cd.probs, c), cd.probs[c], Sum(cd.probs))
  }

  /** Narrow on plain numbers. */
  function Slot(low: nat, range: nat, cum: nat, p: nat, total: nat): (n: Interval)
    requires 1 <= p && cum + p <= total <= MIN_RANGE < range <= TOP && low < TWO_32
    ensures Regs(n) && n.range <= range
    ensures low + range <= TWO_32 ==>
      && n.low == low + Scaled(cum, range, total)
      && n.low + n.range <= low + Scaled(cum + p, range, total)
      && n.low + n.range <= low + range
  {
    SlotFits(cum, p, range, total);
    Interval(Wrap(low + Scaled(cum, range, total)), Wrap(Scaled(p, range, total)))
  }

  /** The encoder's slot for c, [cum*range/total, cum*range/total +
      p*range/total), is non-empty and lies inside the decoder's slot
      [cum*range/total, (cum+p)*range/total), which lies inside the range. */
  lemma SlotFits(cum: nat, p: nat, range: nat, total: nat)
    requires 1 <= p && cum + p <= total <= range
    ensures 1 <= Scaled(p, range, total)
    ensures Scaled(cum, range, total) + Scaled(p, range, total) <= Scaled(cum + p, range, total) <= range
  {
    ScaledSlot(0, p, range, total);
    ScaledSlot(cum, p, range, total);
    assert (cum + p) * range == cum * range + p * range;
    DivAddLe(cum * range, p * range, total);
  }

  /** `low <<= 8; low &= lowMask; range <<= 8`, the shift both loops end
      an iteration with. */
  function Shift(iv: Interval): Interval
  {
    Interval(Wrap(iv.low * 256) % TOP, Wrap(iv.range * 256))
  }

  /** `0xFF & (low >> 23)`: bits 23..30 of low, the byte that leaves. */
  function TopByte(low: nat): Byte
  {
    (low / MIN_RANGE) % 256
  }

  // ---------------------------------------------------------------------
  // Encoding
  // ---------------------------------------------------------------------

  /** The encoder's registers: the interval, the count `carry` of 0xFF
      bytes held back, and the held-back byte `nextByte` with its flag
      `nextByteInited` (`nextByte` starts out 0). */
  datatype Encoder = Encoder(iv: Interval, carry: nat, inited: bool, pending: Byte)

  const Initial := Encoder(Start, 0, false, 0)

  /** The held-back bytes as they are written when no carry arrives:
      nextByte (once it has been set) and `carry` bytes 0xFF. */
  function Held(en: Encoder): seq<Byte>
  {
    (if en.inited then [en.pending] else []) + Repeat(0xFF, en.carry)
  }

  /** The held-back bytes as they are written once a carry has arrived:
      `(nextByte + 1) & 0xff` and `carry` zero bytes. */
  function Carried(en: Encoder): seq<Byte>
  {
    [(en.pending + 1) % 256] + Repeat(0, en.carry)
  }

  /** The bytes one iteration of the encoder's loop writes, and the
      encoder after it. */
  datatype Emitted = Emitted(en: Encoder, bytes: seq<Byte>)

  /** One iteration of the renormalisation loop of `encode`: below
      TOP - MIN_RANGE no carry can reach the held bytes any more, so they
      are written and the top byte of low is held instead; at TOP or above
      the carry has arrived; in between the top byte is 0xFF and joins the
      run. */
  function Step(en: Encoder): (st: Emitted)
    requires Regs(en.iv) && en.iv.range <= MIN_RANGE
    ensures Regs(st.en.iv) && st.en.iv.low < TOP && st.en.iv.range > en.iv.range
  {
    ShiftFits(en.iv);
    if en.iv.low < TOP - MIN_RANGE then
      Emitted(Encoder(Shift(en.iv), 0, true, TopByte(en.iv.low)), Held(en))
    else if en.iv.low >= TOP then
      Emitted(Encoder(Shift(en.iv), 0, en.inited, TopByte(en.iv.low)), Carried(en))
    else
      Emitted(Encoder(Shift(en.iv), en.carry + 1, en.inited, en.pending), [])
  }

  /** The loop `while (range <=u MIN_RANGE)` of `encode`. It leaves a
      range above MIN_RANGE and keeps the encoder's invariant. */
  function Renormalize(en: Encoder): (rn: Emitted)
    requires EncInv(en)
    ensures EncInv(rn.en) && rn.en.iv.range > MIN_RANGE
    decreases TWO_32 - en.iv.range
  {
    if en.iv.range <= MIN_RANGE then
      StepKeeps(en);
      var st := Step(en);
      var rest := Renormalize(st.en);
      Emitted(rest.en, st.bytes + rest.bytes)
    else
      Emitted(en, [])
  }

  /** The termination as the source writes it, and as it is evidently
      meant to be. */
  datatype Ending = AsWritten | Corrected

  /** The termination of a non-empty message. As written: nextByte
      (whether or not it was ever set) or nextByte + 1, the run, then three
      bytes holding bits 30..8 of low. Corrected: the held bytes only as
      the loop writes them, then four bytes holding all 31 bits of low. */
  function Finish(ending: Ending, en: Encoder): (out: seq<Byte>)
    requires en.iv.low < TWO_32
  {
    var low := en.iv.low;
    match ending
    case AsWritten =>
      (if low < TOP then [en.pending] + Repeat(0xFF, en.carry) else Carried(en)) + Tail(AsWritten, low)
    case Corrected =>
      (if low < TOP then Held(en) else Carried(en)) + Tail(Corrected, low)
  }

  /** The bytes of low the termination writes: `(low >>> 23) & 0xff`,
      `(low >>> 15) & 0xff`, `(low >>> 7) & 0xfe` as written; the same with
      the mask 0xff and then `(low & 0x7f) << 1` corrected. */
  function Tail(ending: Ending, low: nat): (t: seq<Byte>)
    requires low < TWO_32
  {
    var b2 := low / 128 % 256;
    match ending
    case AsWritten => [low / MIN_RANGE % 256, low / 0x8000 % 256, b2 - b2 % 2]
    case Corrected => [low / MIN_RANGE % 256, low / 0x8000 % 256, b2, low % 128 * 2]
  }

  /** The bytes written for `msg` from encoder `en`, the termination
      included. */
  function EncodeFrom(cd: Coder, ending: Ending, en: Encoder, msg: seq<nat>): (out: seq<Byte>)
    requires Valid(cd) && EncInv(en) && en.iv.range > MIN_RANGE && InAlphabet(cd, msg)
    ensures |out| >= 3
    decreases |msg|
  {
    if |msg| == 0 then Finish(ending, en)
    else
      NarrowKeeps(cd, en, msg[0]);
      var rn := Renormalize(en.(iv := Narrow(cd, en.iv, msg[0])));
      rn.bytes + EncodeFrom(cd, ending, rn.en, msg[1..])
  }

  /** `encode`: nothing at all for an empty message. */
  function EncodeWith(cd: Coder, ending: Ending, msg: seq<nat>): (out: seq<Byte>)
    requires Valid(cd) && InAlphabet(cd, msg)
    ensures |out| == 0 <==> |msg| == 0
  {
    InitialInv();
    if |msg| == 0 then [] else EncodeFrom(cd, ending, Initial, msg)
  }

  /** `encode` with the termination as written. */
  function EncodeAsWritten(cd: Coder, msg: seq<nat>): seq<Byte>
    requires Valid(cd) && InAlphabet(cd, msg)
  {
    EncodeWith(cd, AsWritten, msg)
  }

  /** `encode` with the termination corrected. */
  function Encode(cd: Coder, msg: seq<nat>): seq<Byte>
    requires Valid(cd) && InAlphabet(cd, msg)
  {
    EncodeWith(cd, Corrected, msg)
  }

  // ---------------------------------------------------------------------
  // Decoding
  // ---------------------------------------------------------------------

  /** The decoder's registers: the interval, `value`, `lastBit` (the bit
      the 31-bit value has not taken yet from the last byte read) and the
      position of the next byte to read. */
  datatype Decoder = Decoder(iv: Interval, value: nat, lastBit: nat, next: nat)

  predicate DecRegs(dec: Decoder)
  {
    Regs(dec.iv) && dec.value < TWO_32 && dec.lastBit < 2
  }

  /** `readFirstNumber`: the first four bytes big-endian, shifted right by
      one; the bit shifted out is `lastBit`. */
  function FirstDecoder(src: seq<Byte>): (dec: Decoder)
    ensures DecRegs(dec) && dec.iv == Start
  {
    Decoder(Start, Word(src, 0) / 2, Word(src, 0) % 2, 4)
  }

  /** `threshold = (int) ((((value - low) & 0xffffffffL) + 1) * totalCount
      - 1) / range)`. */
  function Threshold(cd: Coder, dec: Decoder): nat
    requires Valid(cd) && Regs(dec.iv)
  {
    SlotInTable(cd.probs, MIN_RANGE, 0);
    Wrap(((Wrap(dec.value - dec.iv.low) + 1) * Sum(cd.probs) - 1) / dec.iv.range)
  }

  /** The decoder's symbol search. A result equal to the alphabet size is
      the index at which Java would fail. */
  function DecodeSymbol(cd: Coder, dec: Decoder): (c: nat)
    requires Valid(cd) && Regs(dec.iv)
    ensures c <= |cd.probs|
  {
    Scan(cd.probs, Threshold(cd, dec))
  }

  /** One iteration of the renormalisation loop of `decode`: the shift of
      the interval, `value = ((value << 1) | lastBit) << 7`, plus 2^31 when
      bit 23 of low is set (`invertCarry`: the shift drops it from low, so
      it is dropped from value too), then the top seven bits of the next
      byte fill the seven zero bits and its low bit becomes `lastBit`. */
  function DecStep(src: seq<Byte>, dec: Decoder): (d: Decoder)
    requires DecRegs(dec) && dec.iv.range <= MIN_RANGE
    ensures DecRegs(d) && d.iv.range > dec.iv.range
  {
    ShiftFits(dec.iv);
    var b := ByteAt(src, dec.next);
    Decoder(Shift(dec.iv), ShiftValue(dec.value, dec.lastBit, dec.iv.low, b), b % 2, dec.next + 1)
  }

  /** `value = (value << 8) | (lastBit << 7) | ((b & 0xff) >>> 1)`, with
      `value ^= TOP` first when bit 23 of low is set, as 32-bit
      arithmetic: the bits or-ed in sit below a multiple of 128 that has
      been cut to 32 bits, so they add without a carry. */
  function ShiftValue(value: nat, lastBit: nat, low: nat, b: Byte): (v: nat)
    requires lastBit < 2
    ensures v < TWO_32
  {
    var m := value * 2 + lastBit + (if (low / MIN_RANGE) % 2 == 1 then 0x100_0000 else 0);
    ValueRoom(m, b / 2);
    Wrap(128 * m) + b / 2
  }

  function DecRenormalize(src: seq<Byte>, dec: Decoder): (d: Decoder)
    requires DecRegs(dec)
    ensures DecRegs(d) && d.iv.range > MIN_RANGE
    decreases TWO_32 - dec.iv.range
  {
    if dec.iv.range <= MIN_RANGE then DecRenormalize(src, DecStep(src, dec)) else dec
  }

  /** `n` more symbols, or a failure where Java would index past the
      frequency table. */
  function DecodeFrom(cd: Coder, src: seq<Byte>, dec: Decoder, n: nat): (res: Outcome<seq<nat>>)
    requires Valid(cd) && DecRegs(dec) && dec.iv.range > MIN_RANGE
    ensures res.Ok? ==> |res.value| == n && InAlphabet(cd, res.value)
    decreases n
  {
    if n == 0 then Ok([])
    else
      var c := DecodeSymbol(cd, dec);
      if c == |cd.probs| then Failure("symbol index past the frequency table")
      else
        Prepend(c, DecodeFrom(cd, src, DecRenormalize(src, dec.(iv := Narrow(cd, dec.iv, c))), n - 1))
  }

  /** `decode(inputStream, len)`. */
  function Decode(cd: Coder, src: seq<Byte>, len: nat): (res: Outcome<seq<nat>>)
    requires Valid(cd)
    ensures res.Ok? ==> |res.value| == len && InAlphabet(cd, res.value)
  {
    DecodeFrom(cd, src, FirstDecoder(src), len)
  }

  // ---------------------------------------------------------------------
  // Register arithmetic
  // ---------------------------------------------------------------------

  /** The shift of a range of at most MIN_RANGE does not wrap. */
  lemma ShiftFits(iv: Interval)
    requires Regs(iv) && iv.range <= MIN_RANGE
    ensures Regs(Shift(iv)) && Shift(iv).low < TOP && Shift(iv).range == iv.range * 256
  {
  }

  /** A multiple of 128 stays one when cut to 32 bits, so seven bits
      or-ed in below it are added without a carry. */
  lemma ValueRoom(m: int, y: nat)
    requires y < 128
    ensures Wrap(128 * m) + y < TWO_32
  {
    Pow2Values();
    WrapMod(128 * m, 7);
    ModAddMultiple(0, m, 128);
    assert Wrap(128 * m) % 128 == 0;
  }

  /** A 32-bit number cut into its carry bit (bit 31), the byte that leaves
      on a shift (bits 23..30) and the rest. */
  lemma LowDigits(low: nat)
    requires low < TWO_32
    ensures low == (low / TOP) * TOP + TopByte(low) * MIN_RANGE + low % MIN_RANGE
    ensures low / TOP < 2 && low % TOP == TopByte(low) * MIN_RANGE + low % MIN_RANGE
  {
    DivDiv(low, MIN_RANGE, 256);
    assert low / MIN_RANGE == (low / MIN_RANGE / 256) * 256 + TopByte(low);
  }

  /** `(low << 8) & lowMask` keeps the 23 bits below the byte that left,
      moved up by eight. */
  lemma ShiftLow(low: nat)
    requires low < TWO_32
    ensures Wrap(low * 256) % TOP == (low % MIN_RANGE) * 256
  {
    Pow2Values();
    WrapMod(low * 256, 31);
    assert low * 256 == (low / MIN_RANGE) * TOP + (low % MIN_RANGE) * 256;
    ModAddMultiple((low % MIN_RANGE) * 256, low / MIN_RANGE, TOP);
  }

  // ---------------------------------------------------------------------
  // The encoder's invariant
  // ---------------------------------------------------------------------

  /** The number the encoder has committed to in front of the interval:
      the held bytes as a number, with the interval's 31 bits behind them
      (bit 31 of low, a carry, adds one to the held bytes). */
  function Base(en: Encoder): nat
  {
    Num(Held(en), |Held(en)|) * TOP + en.iv.low
  }

  /** What holds between steps of the encoder: the registers are in range,
      low + range stays within 32 bits (the assertion at the end of the
      decoder's loop), and the interval ends where the held bytes plus 31
      bits end at the latest, so a carry never runs past the first held
      byte. */
  predicate EncInv(en: Encoder)
  {
    && Regs(en.iv) && en.iv.low + en.iv.range <= TWO_32
    && Base(en) + en.iv.range <= Pow256(|Held(en)|) * TOP
  }

  /** The held bytes read as a number: nextByte (if set) followed by
      `carry` digits 0xFF. */
  lemma HeldValue(en: Encoder)
    ensures |Held(en)| == en.carry + (if en.inited then 1 else 0)
    ensures Num(Held(en), |Held(en)|)
         == (if en.inited then en.pending * Pow256(en.carry) else 0) + Pow256(en.carry) - 1
  {
    var x: seq<Byte> := if en.inited then [en.pending] else [];
    NumRepeat(x, 0xFF, en.carry);
    assert Num(x, |x|) == if en.inited then en.pending else 0;
  }

  /** The held bytes after a carry: nextByte + 1 followed by zeros. */
  lemma CarriedValue(en: Encoder)
    requires en.pending < 255
    ensures |Carried(en)| == en.carry + 1
    ensures Num(Carried(en), |Carried(en)|) == (en.pending + 1) * Pow256(en.carry)
  {
    var x: seq<Byte> := [en.pending + 1];
    assert Carried(en) == x + Repeat(0, en.carry);
    NumRepeat(x, 0, en.carry);
    assert Num(x, |x|) == en.pending + 1;
  }

  /** When the carry arrives, nextByte has been set and is below 0xFF, so
      `nextByte + 1` does not overflow: the invariant leaves no room for a
      carry in front of a run that has no nextByte, or into 0xFF. */
  lemma CarryRoom(en: Encoder)
    requires EncInv(en) && en.iv.low >= TOP
    ensures en.inited && en.pending < 255
  {
    HeldValue(en);
    var q := Pow256(en.carry);
    if en.inited {
      assert Pow256(|Held(en)|) == 256 * q;
      ByteRoom(en.pending, q);
    }
  }

  lemma ByteRoom(p: nat, q: nat)
    requires q >= 1 && (p * q + q - 1) * TOP + TOP + 1 <= 256 * q * TOP
    ensures p < 255
  {
    if p >= 255 {
      MulMonoLeft(255, p, q);
    }
  }

  lemma InitialInv()
    ensures EncInv(Initial)
  {
    HeldValue(Initial);
  }

  /** Narrowing keeps the invariant: the interval only shrinks. */
  lemma NarrowKeeps(cd: Coder, en: Encoder, c: nat)
    requires Valid(cd) && EncInv(en) && Wide(en.iv) && c < |cd.probs|
    ensures EncInv(en.(iv := Narrow(cd, en.iv, c)))
  {
    var n := en.(iv := Narrow(cd, en.iv, c));
    assert Held(n) == Held(en);
  }

  /** An iteration in the 0xFF zone: nothing is written, the run grows by
      one byte, and the committed number is shifted by a byte. */
  lemma RunStep(en: Encoder)
    requires EncInv(en) && en.iv.range <= MIN_RANGE && TOP - MIN_RANGE <= en.iv.low < TOP
    ensures Step(en).bytes == []
    ensures |Held(Step(en).en)| == |Held(en)| + 1 && Base(Step(en).en) == 256 * Base(en)
  {
    var en' := Step(en).en;
    RunHeld(en);
    NumSnoc(Held(en), 0xFF);
    ShiftLow(en.iv.low);
    assert en'.iv.low == (en.iv.low % MIN_RANGE) * 256;
    RunDigits(Num(Held(en), |Held(en)|), en.iv.low);
  }

  /** In the 0xFF zone the top byte of low is 0xFF: shifting it into the
      held bytes is a multiplication by 256. */
  lemma RunDigits(num: nat, low: nat)
    requires TOP - MIN_RANGE <= low < TOP
    ensures (num * 256 + 0xFF) * TOP + (low % MIN_RANGE) * 256 == 256 * (num * TOP + low)
  {
    LowDigits(low);
  }

  /** In the 0xFF zone the iteration holds one more 0xFF byte. */
  lemma RunHeld(en: Encoder)
    requires EncInv(en) && en.iv.range <= MIN_RANGE && TOP - MIN_RANGE <= en.iv.low < TOP
    ensures Step(en).bytes == [] && Held(Step(en).en) == Held(en) + [0xFF]
  {
    assert Repeat(0xFF, en.carry + 1) == Repeat(0xFF, en.carry) + [0xFF];
  }

  /** An iteration that writes the held bytes (with the carry added when
      it has arrived) and holds the top byte of low instead. */
  lemma OutStep(en: Encoder)
    requires EncInv(en) && en.iv.range <= MIN_RANGE && !(TOP - MIN_RANGE <= en.iv.low < TOP)
    ensures |Held(Step(en).en)| == 1 && Base(Step(en).en) == 256 * (en.iv.low % TOP)
    ensures |Step(en).bytes| == |Held(en)|
    ensures Num(Step(en).bytes, |Step(en).bytes|) == Num(Held(en), |Held(en)|) + en.iv.low / TOP
    ensures en.iv.low % TOP + en.iv.range <= TOP
  {
    HeldValue(Step(en).en);
    ShiftLow(en.iv.low);
    LowDigits(en.iv.low);
    if en.iv.low >= TOP {
      CarryStep(en);
    }
  }

  /** The carry has arrived: nextByte + 1 and zeros are one more than the
      held bytes. */
  lemma CarryStep(en: Encoder)
    requires EncInv(en) && en.iv.low >= TOP
    ensures |Carried(en)| == |Held(en)| && en.inited
    ensures Num(Carried(en), |Carried(en)|) == Num(Held(en), |Held(en)|) + 1
  {
    HeldValue(en);
    CarryRoom(en);
    CarriedValue(en);
  }

  /** One iteration of the loop keeps the invariant. */
  lemma StepKeeps(en: Encoder)
    requires EncInv(en) && en.iv.range <= MIN_RANGE
    ensures EncInv(Step(en).en)
  {
    ShiftFits(en.iv);
    if TOP - MIN_RANGE <= en.iv.low < TOP {
      RunStep(en);
    } else {
      OutStep(en);
    }
  }

  // ---------------------------------------------------------------------
  // The encoder's bytes stay inside the interval
  // ---------------------------------------------------------------------

  /** The first k bytes of t followed by the 31 bits after them: the
      held bytes and what the decoder's value holds, as one number. */
  function Window(t: seq<Byte>, k: nat): nat
  {
    Num(t, k) * TOP + Word(t, k) / 2
  }

  /** The eight bits the decoder shifts in after the window at k: the bit
      the value left behind (`lastBit`) and the top seven bits of the next
      byte. */
  function Fresh(t: seq<Byte>, k: nat): (f: nat)
    ensures f < 256
  {
    Word(t, k) % 2 * 128 + ByteAt(t, k + 4) / 2
  }

  /** Moving the window on by one byte. */
  lemma WindowNext(t: seq<Byte>, k: nat)
    ensures Window(t, k + 1) == 256 * Window(t, k) + Fresh(t, k)
  {
    var b0, b4 := ByteAt(t, k), ByteAt(t, k + 4);
    var rest := (ByteAt(t, k + 1) * 256 + ByteAt(t, k + 2)) * 256 + ByteAt(t, k + 3);
    var w := Word(t, k);
    assert w == b0 * 0x100_0000 + rest;
    assert Word(t, k + 1) == rest * 256 + b4;
    assert w == 2 * (w / 2) + w % 2;
    DivSplit(rest * 128 + b4 / 2, b4 % 2, 2);
    assert rest * 256 + b4 == (rest * 128 + b4 / 2) * 2 + b4 % 2;
  }

  /** Where the stream t written from encoder `en` on lies relative to
      the start of the interval. */
  function Offset(t: seq<Byte>, en: Encoder): int
  {
    Window(t, |Held(en)|) - Base(en)
  }

  /** The stream written from `en` on points into `en`'s interval. */
  predicate Within(en: Encoder, t: seq<Byte>)
  {
    0 <= Offset(t, en) < en.iv.range
  }

  /** The 0xFF-zone iteration: the window moves on by a byte over the same
      stream, and so does the committed number. */
  lemma RunShift(en: Encoder, t: seq<Byte>)
    requires EncInv(en) && en.iv.range <= MIN_RANGE && TOP - MIN_RANGE <= en.iv.low < TOP
    ensures Offset(t, Step(en).en) == 256 * Offset(Step(en).bytes + t, en) + Fresh(Step(en).bytes + t, |Held(en)|)
  {
    var k := |Held(en)|;
    RunStep(en);
    assert Step(en).bytes + t == t;
    assert Offset(t, Step(en).en) == Window(t, k + 1) - 256 * Base(en);
    WindowNext(t, k);
  }

  /** A window that starts right after the bytes w. */
  lemma WindowAfter(w: seq<Byte>, t: seq<Byte>)
    ensures Window(w + t, |w|) == Num(w, |w|) * TOP + Window(t, 0)
    ensures Fresh(w + t, |w|) == Fresh(t, 0)
  {
    NumOfPrefix(w, t, |w|);
    WordShift(w, t, 0);
    ByteAtShift(w, t, 4);
    assert |w| + 0 == |w|;
  }

  /** The iteration that writes the held bytes: the window that started
      at the held bytes now starts one byte after them. */
  lemma OutShift(en: Encoder, t: seq<Byte>)
    requires EncInv(en) && en.iv.range <= MIN_RANGE && !(TOP - MIN_RANGE <= en.iv.low < TOP)
    ensures Offset(t, Step(en).en) == 256 * Offset(Step(en).bytes + t, en) + Fresh(Step(en).bytes + t, |Held(en)|)
  {
    var w := Step(en).bytes;
    OutStep(en);
    LowDigits(en.iv.low);
    WindowAfter(w, t);
    WindowNext(t, 0);
  }

  /** One iteration scales the offset by 256 and adds the eight bits
      shifted in. */
  lemma StepShift(en: Encoder, t: seq<Byte>)
    requires EncInv(en) && en.iv.range <= MIN_RANGE
    ensures Offset(t, Step(en).en) == 256 * Offset(Step(en).bytes + t, en) + Fresh(Step(en).bytes + t, |Held(en)|)
  {
    if TOP - MIN_RANGE <= en.iv.low < TOP {
      RunShift(en, t);
    } else {
      OutShift(en, t);
    }
  }

  lemma Unshift(x: int, f: nat, r: nat)
    requires f < 256 && 0 <= 256 * x + f < 256 * r
    ensures 0 <= x < r
  {
  }

  /** A stream inside the interval after one iteration, behind the bytes
      the iteration wrote, is inside the interval before it. */
  lemma StepWithin(en: Encoder, t: seq<Byte>)
    requires EncInv(en) && en.iv.range <= MIN_RANGE
    requires Within(Step(en).en, t)
    ensures Within(en, Step(en).bytes + t)
  {
    ShiftFits(en.iv);
    StepShift(en, t);
    Unshift(Offset(Step(en).bytes + t, en), Fresh(Step(en).bytes + t, |Held(en)|), en.iv.range);
  }

  /** A renormalisation widens the interval back out: a stream inside the
      interval it leaves, behind the bytes it wrote, is inside the interval
      it began with. */
  lemma {:induction false} RenormWithin(en: Encoder, t: seq<Byte>)
    requires EncInv(en)
    requires Within(Renormalize(en).en, t)
    ensures Within(en, Renormalize(en).bytes + t)
    decreases TWO_32 - en.iv.range
  {
    if en.iv.range <= MIN_RANGE {
      StepKeeps(en);
      var st := Step(en);
      var rest := Renormalize(st.en);
      RenormWithin(st.en, t);
      StepWithin(en, rest.bytes + t);
      ConcatAssoc(st.bytes, rest.bytes, t);
    } else {
      assert Renormalize(en).bytes + t == t;
    }
  }

  /** The last four bytes hold the 31 bits of low, shifted left by one. */
  lemma TailWord(low: nat)
    requires low < TWO_32
    ensures Word(Tail(Corrected, low), 0) == low % TOP * 2
  {
    var t := Tail(Corrected, low);
    var b0, b1, b2, b3 := low / MIN_RANGE % 256, low / 0x8000 % 256, low / 128 % 256, low % 128;
    assert ByteAt(t, 0) == b0 && ByteAt(t, 1) == b1 && ByteAt(t, 2) == b2 && ByteAt(t, 3) == b3 * 2;
    DivDiv(low, 128, 256);
    DivDiv(low, 0x8000, 256);
    LowDigits(low);
    assert low / 0x8000 == (low / MIN_RANGE) * 256 + b1;
    assert low / 128 == (low / 0x8000) * 256 + b2;
    assert low == (low / 128) * 128 + b3;
    assert low / MIN_RANGE == (low / TOP) * 256 + b0;
  }

  /** The corrected termination writes exactly the committed number: the
      held bytes (plus the carry if it has arrived) and the 31 bits of
      low. */
  lemma FinishWithin(en: Encoder)
    requires EncInv(en)
    ensures Offset(Finish(Corrected, en), en) == 0
  {
    var low := en.iv.low;
    var f := if low < TOP then Held(en) else Carried(en);
    var tail := Tail(Corrected, low);
    assert Finish(Corrected, en) == f + tail;
    FinalHeld(en);
    WindowAfter(f, tail);
    TailWord(low);
    LowDigits(low);
  }

  /** The bytes the termination writes in front of low: the held bytes,
      with the carry added if bit 31 of low is set. */
  lemma FinalHeld(en: Encoder)
    requires EncInv(en)
    ensures var f := if en.iv.low < TOP then Held(en) else Carried(en);
      |f| == |Held(en)| && Num(f, |f|) == Num(Held(en), |Held(en)|) + en.iv.low / TOP
  {
    if en.iv.low >= TOP {
      CarryStep(en);
    }
  }

  /** A stream inside the narrowed interval is inside the interval, and
      its offset lies in the decoder's slot for c. */
  lemma NarrowWithin(cd: Coder, en: Encoder, c: nat, t: seq<Byte>)
    requires Valid(cd) && EncInv(en) && Wide(en.iv) && c < |cd.probs|
    requires Within(en.(iv := Narrow(cd, en.iv, c)), t)
    ensures Within(en, t)
    ensures Scaled(CumBefore(cd.probs, c), en.iv.range, Sum(cd.probs)) <= Offset(t, en)
          < Scaled(CumBefore(cd.probs, c) + cd.probs[c], en.iv.range, Sum(cd.probs))
  {
    var n := en.(iv := Narrow(cd, en.iv, c));
    assert Held(n) == Held(en);
  }

  /** Every stream the corrected encoder writes from a state with a wide
      interval points into that interval. */
  lemma {:induction false} EncodeWithin(cd: Coder, en: Encoder, msg: seq<nat>)
    requires Valid(cd) && EncInv(en) && Wide(en.iv) && InAlphabet(cd, msg)
    ensures Within(en, EncodeFrom(cd, Corrected, en, msg))
    decreases |msg|
  {
    if |msg| == 0 {
      FinishWithin(en);
    } else {
      NarrowKeeps(cd, en, msg[0]);
      var n := en.(iv := Narrow(cd, en.iv, msg[0]));
      var rn := Renormalize(n);
      EncodeWithin(cd, rn.en, msg[1..]);
      RenormWithin(n, EncodeFrom(cd, Corrected, rn.en, msg[1..]));
      NarrowWithin(cd, en, msg[0], EncodeFrom(cd, Corrected, en, msg));
    }
  }

  // ---------------------------------------------------------------------
  // The decoder follows the encoder
  // ---------------------------------------------------------------------

  /** Decoder `dec` reading the full stream g is in step with encoder `en`
      that has written e and will write t: same interval, the next byte to
      read is four past the held bytes, the spare bit is the window's last
      bit, and value - low equals the offset modulo 2^32. */
  predicate Sync(g: seq<Byte>, e: seq<Byte>, t: seq<Byte>, en: Encoder, dec: Decoder)
  {
    && g == e + t
    && dec.iv == en.iv
    && dec.next == |e| + |Held(en)| + 4
    && dec.lastBit == Word(t, |Held(en)|) % 2
    && (dec.value - dec.iv.low - Offset(t, en)) % TWO_32 == 0
  }

  /** The decoder's shift scales value - low by 256 and adds the eight
      fresh bits, modulo 2^32: the top bit it sets when low's bit 23 is set
      makes up for the bit of low that the shift drops. */
  lemma DecShift(value: nat, low: nat, lastBit: nat, b: Byte)
    requires low < TWO_32 && lastBit < 2
    ensures (ShiftValue(value, lastBit, low, b) - Wrap(low * 256) % TOP - (256 * (value - low) + lastBit * 128 + b / 2)) % TWO_32 == 0
  {
    var inv := (low / MIN_RANGE) % 2;
    var x := value * 256 + lastBit * 128 + inv * TOP;
    assert 128 * (value * 2 + lastBit + inv * 0x100_0000) == x;
    assert ShiftValue(value, lastBit, low, b) == Wrap(x) + b / 2;
    ShiftLow(low);
    assert low == (low / MIN_RANGE) * MIN_RANGE + low % MIN_RANGE;
    assert low / MIN_RANGE == 2 * (low / MIN_RANGE / 2) + inv;
    var q := (Wrap(x) - x) / TWO_32;
    assert Wrap(x) == x + q * TWO_32;
    var j := inv + low / MIN_RANGE / 2 + q;
    assert Wrap(x) + b / 2 - Wrap(low * 256) % TOP - (256 * (value - low) + lastBit * 128 + b / 2)
        == j * TWO_32;
    ModAddMultiple(0, j, TWO_32);
  }

  lemma CongruentShift(a: int, b: int)
    requires a % TWO_32 == 0 && b % TWO_32 == 0
    ensures (a + 256 * b) % TWO_32 == 0
  {
    ModAddMultiple(0, a / TWO_32 + 256 * (b / TWO_32), TWO_32);
  }

  /** The low bit of a word is the low bit of its last byte. */
  lemma WordParity(t: seq<Byte>, k: nat)
    ensures Word(t, k) % 2 == ByteAt(t, k + 3) % 2
  {
    var hi := (ByteAt(t, k) * 256 + ByteAt(t, k + 1)) * 256 + ByteAt(t, k + 2);
    ModAddMultiple(ByteAt(t, k + 3), hi * 128, 2);
  }

  /** One iteration moves the held bytes on by one position, whether or
      not it writes them. */
  lemma StepPlaces(en: Encoder)
    requires EncInv(en) && en.iv.range <= MIN_RANGE
    ensures |Step(en).bytes| + |Held(Step(en).en)| == |Held(en)| + 1
  {
    if TOP - MIN_RANGE <= en.iv.low < TOP {
      RunStep(en);
    } else {
      OutStep(en);
    }
  }

  /** The congruence of Sync carried across a shift on both sides. */
  lemma CongruentStep(dv: int, dl: int, v: int, l: int, off: int, off2: int, f: int)
    requires (dv - dl - (256 * (v - l) + f)) % TWO_32 == 0 && (v - l - off) % TWO_32 == 0
    requires off2 == 256 * off + f
    ensures (dv - dl - off2) % TWO_32 == 0
  {
    CongruentShift(dv - dl - (256 * (v - l) + f), v - l - off);
  }

  /** One iteration on both sides: positions and the spare bit. */
  lemma StepPlacesSync(g: seq<Byte>, e: seq<Byte>, t: seq<Byte>, en: Encoder, dec: Decoder)
    requires EncInv(en) && en.iv.range <= MIN_RANGE && DecRegs(dec)
    requires Sync(g, e, Step(en).bytes + t, en, dec)
    ensures g == (e + Step(en).bytes) + t && DecStep(g, dec).iv == Step(en).en.iv
    ensures DecStep(g, dec).next == |e + Step(en).bytes| + |Held(Step(en).en)| + 4
    ensures DecStep(g, dec).lastBit == Word(t, |Held(Step(en).en)|) % 2
    ensures Fresh(Step(en).bytes + t, |Held(en)|) == dec.lastBit * 128 + ByteAt(g, dec.next) / 2
  {
    var w := Step(en).bytes;
    var big := w + t;
    var k, k2 := |Held(en)|, |Held(Step(en).en)|;
    ConcatAssoc(e, w, t);
    StepPlaces(en);
    ByteAtShift(e, big, k + 4);
    ByteAtShift(e + w, t, k2 + 3);
    assert |e + w| + (k2 + 3) == dec.next;
    WordParity(t, k2);
  }

  /** One iteration on both sides keeps them in step. */
  lemma StepSync(g: seq<Byte>, e: seq<Byte>, t: seq<Byte>, en: Encoder, dec: Decoder)
    requires EncInv(en) && en.iv.range <= MIN_RANGE && DecRegs(dec)
    requires Sync(g, e, Step(en).bytes + t, en, dec)
    ensures Sync(g, e + Step(en).bytes, t, Step(en).en, DecStep(g, dec))
  {
    var b := ByteAt(g, dec.next);
    var d := DecStep(g, dec);
    StepPlacesSync(g, e, t, en, dec);
    StepShift(en, t);
    DecShift(dec.value, dec.iv.low, dec.lastBit, b);
    CongruentStep(d.value, d.iv.low, dec.value, dec.iv.low, Offset(Step(en).bytes + t, en),
                  Offset(t, Step(en).en), dec.lastBit * 128 + b / 2);
  }

  /** Renormalisation on both sides keeps them in step. */
  lemma {:induction false} DecRenormSync(g: seq<Byte>, e: seq<Byte>, t: seq<Byte>, en: Encoder, dec: Decoder)
    requires EncInv(en) && DecRegs(dec)
    requires Sync(g, e, Renormalize(en).bytes + t, en, dec)
    ensures Sync(g, e + Renormalize(en).bytes, t, Renormalize(en).en, DecRenormalize(g, dec))
    decreases TWO_32 - en.iv.range
  {
    if en.iv.range <= MIN_RANGE {
      StepKeeps(en);
      var st := Step(en);
      var rest := Renormalize(st.en);
      ConcatAssoc(st.bytes, rest.bytes, t);
      StepSync(g, e, rest.bytes + t, en, dec);
      DecRenormSync(g, e + st.bytes, t, st.en, DecStep(g, dec));
      ConcatAssoc(e, st.bytes, rest.bytes);
    } else {
      assert Renormalize(en).bytes + t == t;
      assert e + Renormalize(en).bytes == e;
    }
  }

  // ---------------------------------------------------------------------
  // The symbol search
  // ---------------------------------------------------------------------

  /** With the range above MIN_RANGE the 64-bit threshold
      `((value - low + 1) * totalCount - 1) / range` fits in 32 bits, so
      the cast back to int loses nothing. */
  lemma RawThreshold(cd: Coder, dec: Decoder)
    requires Valid(cd) && Wide(dec.iv)
    ensures Threshold(cd, dec) == ((Wrap(dec.value - dec.iv.low) + 1) * Sum(cd.probs) - 1) / dec.iv.range
    ensures Threshold(cd, dec) < TWO_32
  {
    SlotInTable(cd.probs, MIN_RANGE, 0);
    var d, total, range := Wrap(dec.value - dec.iv.low), Sum(cd.probs), dec.iv.range;
    MulMonoLeft(d + 1, TWO_32, total);
    MulMonoLeft(total, range, TWO_32);
    DivLeIff((d + 1) * total - 1, range, TWO_32 - 1);
    DivGeIff((d + 1) * total - 1, range, 0);
  }

  /** The decoder picks c exactly when value - low (mod 2^32) lies in the
      decoder's slot for c, the one the encoder's narrowed interval lies
      in. */
  lemma SymbolIff(cd: Coder, dec: Decoder, c: nat)
    requires Valid(cd) && Wide(dec.iv) && c < |cd.probs|
    ensures DecodeSymbol(cd, dec) == c <==>
      Scaled(CumBefore(cd.probs, c), dec.iv.range, Sum(cd.probs)) <= Wrap(dec.value - dec.iv.low)
        < Scaled(CumBefore(cd.probs, c) + cd.probs[c], dec.iv.range, Sum(cd.probs))
  {
    SlotInTable(cd.probs, MIN_RANGE, c);
    var d := Wrap(dec.value - dec.iv.low);
    RawThreshold(cd, dec);
    FloorThreshold(d, dec.iv.range, Sum(cd.probs), CumBefore(cd.probs, c), CumBefore(cd.probs, c) + cd.probs[c]);
    ScanFindsSlot(cd.probs, MIN_RANGE, Threshold(cd, dec), c);
  }

  /** The search runs off the table exactly when value - low (mod 2^32)
      lies at or beyond the range: the case `decode` reports as an index
      past the table. */
  lemma SymbolOffTable(cd: Coder, dec: Decoder)
    requires Valid(cd) && Wide(dec.iv)
    ensures DecodeSymbol(cd, dec) == |cd.probs| <==> Wrap(dec.value - dec.iv.low) >= dec.iv.range
  {
    SlotInTable(cd.probs, MIN_RANGE, 0);
    RawThreshold(cd, dec);
    ScanOffTable(cd.probs, MIN_RANGE, Threshold(cd, dec));
    PastTable(Wrap(dec.value - dec.iv.low), Sum(cd.probs), dec.iv.range);
  }

  /** The threshold reaches the total exactly when d reaches the range. */
  lemma PastTable(d: nat, total: nat, range: nat)
    requires total >= 1 && range >= 1
    ensures ((d + 1) * total - 1) / range >= total <==> d >= range
  {
    DivGeIff((d + 1) * total - 1, range, total);
    if d >= range {
      MulMonoLeft(range + 1, d + 1, total);
    } else {
      MulMonoLeft(d + 1, range, total);
    }
  }

  // ---------------------------------------------------------------------
  // The round trip
  // ---------------------------------------------------------------------

  /** Two numbers below 2^32 that agree modulo 2^32 are equal. */
  lemma SameResidue(x: int, off: int, w: nat)
    requires (x - off) % TWO_32 == 0 && (w - x) % TWO_32 == 0
    requires 0 <= off < TWO_32 && w < TWO_32
    ensures w == off
  {
    assert x - off == (x - off) / TWO_32 * TWO_32;
    assert w - x == (w - x) / TWO_32 * TWO_32;
  }

  /** At a symbol boundary the decoder's value - low is exactly the
      offset of the stream still to come. */
  lemma SyncOffset(g: seq<Byte>, e: seq<Byte>, t: seq<Byte>, en: Encoder, dec: Decoder)
    requires Regs(en.iv) && Sync(g, e, t, en, dec) && Within(en, t)
    ensures Wrap(dec.value - dec.iv.low) == Offset(t, en)
  {
    SameResidue(dec.value - dec.iv.low, Offset(t, en), Wrap(dec.value - dec.iv.low));
  }

  /** The two asserts of the decoder's loop (lines 287 and 330) hold for
      a decoder in step with the encoder: value is at least low, and
      low + range fits in 32 bits. */
  lemma DecoderAsserts(g: seq<Byte>, e: seq<Byte>, t: seq<Byte>, en: Encoder, dec: Decoder)
    requires EncInv(en) && DecRegs(dec) && Sync(g, e, t, en, dec) && Within(en, t)
    ensures dec.value >= dec.iv.low && dec.iv.low + dec.iv.range <= TWO_32
  {
    SyncOffset(g, e, t, en, dec);
  }

  /** The decoder reads the symbol the encoder coded. */
  lemma SymbolSync(cd: Coder, g: seq<Byte>, e: seq<Byte>, en: Encoder, dec: Decoder, msg: seq<nat>)
    requires Valid(cd) && EncInv(en) && Wide(en.iv) && InAlphabet(cd, msg) && |msg| > 0
    requires Sync(g, e, EncodeFrom(cd, Corrected, en, msg), en, dec)
    ensures DecodeSymbol(cd, dec) == msg[0]
  {
    var c, t := msg[0], EncodeFrom(cd, Corrected, en, msg);
    NarrowKeeps(cd, en, c);
    var n := en.(iv := Narrow(cd, en.iv, c));
    var rn := Renormalize(n);
    var rest := EncodeFrom(cd, Corrected, rn.en, msg[1..]);
    assert t == rn.bytes + rest;
    EncodeWithin(cd, rn.en, msg[1..]);
    RenormWithin(n, rest);
    NarrowWithin(cd, en, c, t);
    SyncOffset(g, e, t, en, dec);
    SymbolIff(cd, dec, c);
  }

  /** Narrowing both intervals to the same symbol keeps them in step:
      low moves by as much as the offset shrinks. */
  lemma NarrowSync(cd: Coder, g: seq<Byte>, e: seq<Byte>, t: seq<Byte>, en: Encoder, dec: Decoder, c: nat)
    requires Valid(cd) && Wide(en.iv) && c < |cd.probs|
    requires Sync(g, e, t, en, dec)
    ensures Sync(g, e, t, en.(iv := Narrow(cd, en.iv, c)), dec.(iv := Narrow(cd, dec.iv, c)))
  {
    assert Held(en.(iv := Narrow(cd, en.iv, c))) == Held(en);
  }

  /** One symbol on both sides: the decoder outputs it and both move on to
      the rest of the message, still in step. */
  lemma Advance(cd: Coder, g: seq<Byte>, e: seq<Byte>, en: Encoder, dec: Decoder, msg: seq<nat>)
      returns (rn: Emitted, next: Decoder)
    requires Valid(cd) && EncInv(en) && Wide(en.iv) && InAlphabet(cd, msg) && |msg| > 0 && DecRegs(dec)
    requires Sync(g, e, EncodeFrom(cd, Corrected, en, msg), en, dec)
    ensures EncInv(rn.en) && Wide(rn.en.iv) && InAlphabet(cd, msg[1..])
    ensures DecRegs(next) && next.iv.range > MIN_RANGE
    ensures Sync(g, e + rn.bytes, EncodeFrom(cd, Corrected, rn.en, msg[1..]), rn.en, next)
    ensures next == DecRenormalize(g, dec.(iv := Narrow(cd, dec.iv, msg[0])))
    ensures DecodeFrom(cd, g, dec, |msg|) == Prepend(msg[0], DecodeFrom(cd, g, next, |msg[1..]|))
  {
    SymbolSync(cd, g, e, en, dec, msg);
    var c := msg[0];
    NarrowKeeps(cd, en, c);
    var n := en.(iv := Narrow(cd, en.iv, c));
    var dn := dec.(iv := Narrow(cd, dec.iv, c));
    rn := Renormalize(n);
    NarrowSync(cd, g, e, EncodeFrom(cd, Corrected, en, msg), en, dec, c);
    DecRenormSync(g, e, EncodeFrom(cd, Corrected, rn.en, msg[1..]), n, dn);
    next := DecRenormalize(g, dn);
  }

  /** One iteration of the decoder's loop from a state in step with the
      encoder passes both asserts: the one before the symbol search and
      the one after the renormalization. */
  lemma StepAsserts(cd: Coder, g: seq<Byte>, e: seq<Byte>, en: Encoder, dec: Decoder, msg: seq<nat>)
    requires Valid(cd) && EncInv(en) && Wide(en.iv) && InAlphabet(cd, msg) && |msg| > 0 && DecRegs(dec)
    requires Sync(g, e, EncodeFrom(cd, Corrected, en, msg), en, dec)
    ensures dec.value >= dec.iv.low
    ensures var next := DecRenormalize(g, dec.(iv := Narrow(cd, dec.iv, msg[0])));
      next.iv.low + next.iv.range <= TWO_32
  {
    EncodeWithin(cd, en, msg);
    DecoderAsserts(g, e, EncodeFrom(cd, Corrected, en, msg), en, dec);
    var rn, next := Advance(cd, g, e, en, dec, msg);
    EncodeWithin(cd, rn.en, msg[1..]);
    DecoderAsserts(g, e + rn.bytes, EncodeFrom(cd, Corrected, rn.en, msg[1..]), rn.en, next);
  }

  /** Decoding from a decoder in step with the encoder returns the rest of
      the message. */
  lemma {:induction false} DecodeFromSync(cd: Coder, g: seq<Byte>, e: seq<Byte>, en: Encoder, dec: Decoder, msg: seq<nat>)
    requires Valid(cd) && EncInv(en) && Wide(en.iv) && InAlphabet(cd, msg)
    requires DecRegs(dec) && dec.iv.range > MIN_RANGE
    requires Sync(g, e, EncodeFrom(cd, Corrected, en, msg), en, dec)
    ensures DecodeFrom(cd, g, dec, |msg|) == Ok(msg)
    decreases |msg|
  {
    if |msg| > 0 {
      var rn, next := Advance(cd, g, e, en, dec, msg);
      DecodeFromSync(cd, g, e + rn.bytes, rn.en, next, msg[1..]);
      PrependHead(msg);
    }
  }

  /** `readFirstNumber` starts in step with an encoder that has written
      nothing. */
  lemma StartSync(g: seq<Byte>)
    ensures Sync(g, [], g, Initial, FirstDecoder(g))
  {
    assert Held(Initial) == [];
  }

  /** `decode(encode(message), message.length)` returns the message, with
      the corrected termination. */
  lemma RoundTrip(cd: Coder, msg: seq<nat>)
    requires Valid(cd) && InAlphabet(cd, msg)
    ensures Decode(cd, Encode(cd, msg), |msg|) == Ok(msg)
  {
    if |msg| > 0 {
      InitialInv();
      var g := EncodeFrom(cd, Corrected, Initial, msg);
      StartSync(g);
      DecodeFromSync(cd, g, [], Initial, FirstDecoder(g), msg);
    }
  }

  /** The round trip with the table `count` builds from the message itself,
      as the driver programs use the coder. */
  lemma CountedRoundTrip(alphabetSize: nat, msg: seq<nat>)
    requires 1 <= alphabetSize <= MIN_RANGE && |msg| < 0x4000_0000
    requires forall i :: 0 <= i < |msg| ==> msg[i] < alphabetSize
    ensures Valid(Coder(CountFor(alphabetSize, msg)))
    ensures Decode(Coder(CountFor(alphabetSize, msg)), Encode(Coder(CountFor(alphabetSize, msg)), msg), |msg|) == Ok(msg)
  {
    RoundTrip(Coder(CountFor(alphabetSize, msg)), msg);
  }

  // ---------------------------------------------------------------------
  // The termination as written loses messages
  // ---------------------------------------------------------------------

  /** The encoder for [1] over the table [1, 1]: the symbol takes the
      upper half of the interval, and the range stays above MIN_RANGE, so
      no iteration runs and nextByte is never set. */
  lemma HalfTableEncoder()
    ensures Valid(Coder([1, 1]))
    ensures Renormalize(Initial.(iv := Narrow(Coder([1, 1]), Start, 1)))
         == Emitted(Encoder(Interval(0x4000_0000, 0x4000_0000), 0, false, 0), [])
  {
    var cd := Coder([1, 1]);
    PairTable(1, 1);
    assert Valid(cd);
    assert Scaled(1, TOP, 2) == 0x4000_0000;
    assert Narrow(cd, Start, 1) == Interval(0x4000_0000, 0x4000_0000);
  }

  /** Both terminations for low = 2^30 with nothing held. */
  lemma HalfTableFinish()
    ensures Finish(AsWritten, Encoder(Interval(0x4000_0000, 0x4000_0000), 0, false, 0)) == [0, 0x80, 0, 0]
    ensures Finish(Corrected, Encoder(Interval(0x4000_0000, 0x4000_0000), 0, false, 0)) == [0x80, 0, 0, 0]
  {
    var en := Encoder(Interval(0x4000_0000, 0x4000_0000), 0, false, 0);
    assert Repeat(0xFF, 0) == [];
    assert Held(en) == [];
  }

  /** The decoder reading [0, 0x80, 0, 0] with the table [1, 1]:
      value - low = 2^22 lies in the lower half, symbol 0. */
  lemma HalfTableDecoder()
    ensures Valid(Coder([1, 1]))
    ensures Decode(Coder([1, 1]), [0, 0x80, 0, 0], 1) == Ok([0])
  {
    var cd := Coder([1, 1]);
    PairTable(1, 1);
    assert Valid(cd);
    var src: seq<Byte> := [0, 0x80, 0, 0];
    var dec := FirstDecoder(src);
    assert Word(src, 0) == 0x80_0000;
    assert dec == Decoder(Start, 0x40_0000, 0, 4);
    assert Threshold(cd, dec) == 0;
    assert ScanFrom(cd.probs, 0, 0) == 0;
    assert DecodeSymbol(cd, dec) == 0;
    var d1 := DecRenormalize(src, dec.(iv := Narrow(cd, dec.iv, 0)));
    assert DecodeFrom(cd, src, d1, 0) == Ok([]);
    assert DecodeFrom(cd, src, dec, 1) == Prepend(0, DecodeFrom(cd, src, d1, 0));
    assert [0] + [] == [0];
  }

  /** Both encoders for [1] over the table [1, 1] write the termination
      and nothing else. */
  lemma HalfTableEncode(ending: Ending)
    ensures Valid(Coder([1, 1])) && InAlphabet(Coder([1, 1]), [1])
    ensures EncodeWith(Coder([1, 1]), ending, [1])
         == Finish(ending, Encoder(Interval(0x4000_0000, 0x4000_0000), 0, false, 0))
  {
    var cd := Coder([1, 1]);
    HalfTableEncoder();
    InitialInv();
    var msg: seq<nat> := [1];
    assert msg[1..] == [];
    NarrowKeeps(cd, Initial, msg[0]);
    var rn := Renormalize(Initial.(iv := Narrow(cd, Initial.iv, msg[0])));
    assert rn.en == Encoder(Interval(0x4000_0000, 0x4000_0000), 0, false, 0) && rn.bytes == [];
    assert EncodeFrom(cd, ending, rn.en, msg[1..]) == Finish(ending, rn.en);
    assert EncodeFrom(cd, ending, Initial, msg) == rn.bytes + EncodeFrom(cd, ending, rn.en, msg[1..]);
  }

  /** As written, the termination writes `nextByte` even when no
      iteration ever set it: for the one-symbol message [1] over two
      equally likely symbols it writes a spurious zero byte in front of
      low, and the decoder, reading low one byte late, returns [0]. */
  lemma UninitedPendingLoses()
    ensures Valid(Coder([1, 1])) && InAlphabet(Coder([1, 1]), [1])
    ensures EncodeAsWritten(Coder([1, 1]), [1]) == [0, 0x80, 0, 0]
    ensures Decode(Coder([1, 1]), [0, 0x80, 0, 0], 1) == Ok([0])
  {
    HalfTableEncode(AsWritten);
    HalfTableFinish();
    HalfTableDecoder();
  }

  /** The corrected termination for the same message writes low alone. */
  lemma UninitedPendingCorrected()
    ensures Valid(Coder([1, 1])) && InAlphabet(Coder([1, 1]), [1])
    ensures Encode(Coder([1, 1]), [1]) == [0x80, 0, 0, 0]
  {
    HalfTableEncode(Corrected);
    HalfTableFinish();
  }

  /** The encoder's registers for [0, 1] over the table [1, 256]: after
      symbol 0 one iteration shifts the interval out (writing nothing, as
      nothing is held yet); symbol 1 then leaves low = 8323453. */
  lemma ShortTailEncoder()
    ensures Valid(Coder([1, 256]))
    ensures Renormalize(Initial.(iv := Narrow(Coder([1, 256]), Start, 0)))
         == Emitted(Encoder(Interval(0, 2139127552), 0, true, 0), [])
    ensures Narrow(Coder([1, 256]), Interval(0, 2139127552), 1) == Interval(8323453, 2130804098)
  {
    var cd := Coder([1, 256]);
    PairTable(1, 256);
    assert Scaled(0, TOP, 257) == 0 && Scaled(1, TOP, 257) == 8355967;
    var en0 := Initial.(iv := Narrow(cd, Start, 0));
    assert en0.iv == Interval(0, 8355967);
    var en1 := Encoder(Interval(0, 2139127552), 0, true, 0);
    assert Held(en0) == [];
    assert Step(en0) == Emitted(en1, []);
    assert Scaled(1, 2139127552, 257) == 8323453 && Scaled(256, 2139127552, 257) == 2130804098;
  }

  /** The decoder's first symbol for [0, 0, 254, 2] with the table
      [1, 256]: value - low = 32513 lies in symbol 0's slot, and one
      iteration then brings value to 8323328 and range to 2139127552. */
  lemma ShortTailFirstSymbol()
    ensures Valid(Coder([1, 256]))
    ensures DecodeSymbol(Coder([1, 256]), FirstDecoder([0, 0, 254, 2])) == 0
    ensures DecRenormalize([0, 0, 254, 2], FirstDecoder([0, 0, 254, 2]).(iv := Narrow(Coder([1, 256]), Start, 0)))
         == Decoder(Interval(0, 2139127552), 8323328, 0, 5)
  {
    var cd := Coder([1, 256]);
    PairTable(1, 256);
    assert Valid(cd);
    assert Scaled(0, TOP, 257) == 0 && Scaled(1, TOP, 257) == 8355967;
    var src: seq<Byte> := [0, 0, 254, 2];
    var dec := FirstDecoder(src);
    assert Word(src, 0) == 65026;
    assert dec == Decoder(Start, 32513, 0, 4);
    assert Threshold(cd, dec) == 0;
    assert ScanFrom(cd.probs, 0, 0) == 0;
    var dn := dec.(iv := Narrow(cd, dec.iv, 0));
    assert dn == Decoder(Interval(0, 8355967), 32513, 0, 4);
    ShortTailDecStep();
  }

  /** The decoder's one iteration after the first symbol. */
  lemma ShortTailDecStep()
    ensures DecStep([0, 0, 254, 2], Decoder(Interval(0, 8355967), 32513, 0, 4))
         == Decoder(Interval(0, 2139127552), 8323328, 0, 5)
  {
    var src: seq<Byte> := [0, 0, 254, 2];
    assert ByteAt(src, 4) == 0;
    assert Shift(Interval(0, 8355967)) == Interval(0, 2139127552);
    assert Wrap(32513 * 256) == 8323328;
  }

  /** The decoder's second symbol: value - low = 8323328 lies below the
      low of 8323453 the encoder ended with, in symbol 0's slot. */
  lemma ShortTailSecondSymbol()
    ensures Valid(Coder([1, 256]))
    ensures DecodeFrom(Coder([1, 256]), [0, 0, 254, 2], Decoder(Interval(0, 2139127552), 8323328, 0, 5), 1) == Ok([0])
  {
    var cd := Coder([1, 256]);
    PairTable(1, 256);
    assert Valid(cd);
    var src: seq<Byte> := [0, 0, 254, 2];
    var d1 := Decoder(Interval(0, 2139127552), 8323328, 0, 5);
    assert Threshold(cd, d1) == 0;
    assert ScanFrom(cd.probs, 0, 0) == 0;
    assert DecodeSymbol(cd, d1) == 0;
    var d2 := DecRenormalize(src, d1.(iv := Narrow(cd, d1.iv, 0)));
    assert DecodeFrom(cd, src, d2, 0) == Ok([]);
    assert DecodeFrom(cd, src, d1, 1) == Prepend(0, DecodeFrom(cd, src, d2, 0));
    assert [0] + [] == [0];
  }

  /** The decoder reading [0, 0, 254, 2] with the table [1, 256]: both
      symbols come out as 0. */
  lemma ShortTailDecoder()
    ensures Valid(Coder([1, 256]))
    ensures Decode(Coder([1, 256]), [0, 0, 254, 2], 2) == Ok([0, 0])
  {
    ShortTailFirstSymbol();
    ShortTailSecondSymbol();
    var cd := Coder([1, 256]);
    var src: seq<Byte> := [0, 0, 254, 2];
    var d1 := Decoder(Interval(0, 2139127552), 8323328, 0, 5);
    assert Decode(cd, src, 2) == DecodeFrom(cd, src, FirstDecoder(src), 2);
    assert DecodeFrom(cd, src, FirstDecoder(src), 2) == Prepend(0, DecodeFrom(cd, src, d1, 1));
    assert [0] + [0] == [0, 0];
  }

  /** The termination as written for low = 8323453: bits 30..8 of low
      are 0x00FE02, and the byte for bits 15..8 loses its low bit. */
  lemma ShortTailFinish()
    ensures Finish(AsWritten, Encoder(Interval(8323453, 2130804098), 0, true, 0)) == [0, 0, 254, 2]
  {
    var low := 8323453;
    assert low / MIN_RANGE == 0 && low / 0x8000 == 254 && low / 128 == 65026;
    assert Repeat(0xFF, 0) == [];
  }

  /** As written, the termination keeps only bits 30..8 of low (three
      bytes, the last masked with 0xfe): for [0, 1] over the table [1, 256]
      the decoder's value falls below low and it returns [0, 0]. */
  lemma ShortTailLoses()
    ensures Valid(Coder([1, 256])) && InAlphabet(Coder([1, 256]), [0, 1])
    ensures EncodeAsWritten(Coder([1, 256]), [0, 1]) == [0, 0, 254, 2]
    ensures Decode(Coder([1, 256]), [0, 0, 254, 2], 2) == Ok([0, 0])
  {
    ShortTailEncode();
    ShortTailFinish();
    ShortTailDecoder();
  }

  /** The encoder as written for [0, 1] over the table [1, 256] writes
      only the termination. */
  lemma ShortTailEncode()
    ensures Valid(Coder([1, 256])) && InAlphabet(Coder([1, 256]), [0, 1])
    ensures EncodeAsWritten(Coder([1, 256]), [0, 1])
         == Finish(AsWritten, Encoder(Interval(8323453, 2130804098), 0, true, 0))
  {
    var cd := Coder([1, 256]);
    ShortTailEncoder();
    InitialInv();
    var msg: seq<nat> := [0, 1];
    assert msg[1..] == [1] && msg[1..][1..] == [];
    NarrowKeeps(cd, Initial, msg[0]);
    var rn := Renormalize(Initial.(iv := Narrow(cd, Initial.iv, msg[0])));
    assert rn.en == Encoder(Interval(0, 2139127552), 0, true, 0) && rn.bytes == [];
    NarrowKeeps(cd, rn.en, 1);
    var en2 := rn.en.(iv := Narrow(cd, rn.en.iv, 1));
    assert en2 == Encoder(Interval(8323453, 2130804098), 0, true, 0);
    var rn2 := Renormalize(en2);
    assert rn2.en == en2 && rn2.bytes == [];
    assert EncodeFrom(cd, AsWritten, rn2.en, msg[1..][1..]) == Finish(AsWritten, rn2.en);
    assert EncodeFrom(cd, AsWritten, rn.en, msg[1..]) == rn2.bytes + EncodeFrom(cd, AsWritten, rn2.en, msg[1..][1..]);
    assert EncodeFrom(cd, AsWritten, Initial, msg) == rn.bytes + EncodeFrom(cd, AsWritten, rn.en, msg[1..]);
  }
}
