/** CarrylessRangeCoder: Dmitry Subbotin's 32-bit range coder. The state
    is the interval [low, low + range) of 32-bit numbers. A byte leaves from
    the top of `low` once the top byte of the interval has settled; when the
    range gets small before that happens, the range is cut so that the
    interval ends on a block boundary, and no carry ever reaches a byte
    already written. `encode`/`decode` renormalise as soon as the top byte
    settles; `encodeUnoptimized`/`decodeUnoptimized` only once the range has
    dropped to MIN_RANGE. */
module CarrylessRangeCoder {
  import opened NatMath
  import opened Wrappers
  import opened Bytes
  import opened Frequency

  /** `MIN_RANGE = 1 << (32 - 8 - 7)`. */
  const MIN_RANGE: nat := 0x2_0000

  /** The weight of the top byte of a 32-bit number. */
  const TOP: nat := 0x100_0000

  /** The starting range `(int) ((1L << 32) - 1)`. */
  const FULL: nat := 0xFFFF_FFFF

  /** A coder: the frequency table that `count` filled in. */
  datatype Coder = Coder(probs: seq<nat>)

  /** What the constructor asserts (at most MIN_RANGE symbols) and what
      `count` leaves in the table (no zero entry, a total of at most
      MIN_RANGE). */
  predicate Valid(cd: Coder)
  {
    |cd.probs| <= MIN_RANGE && ValidTable(cd.probs, MIN_RANGE)
  }

  predicate InAlphabet(cd: Coder, msg: seq<nat>)
  {
    forall i :: 0 <= i < |msg| ==> msg[i] < |cd.probs|
  }

  /** `count` with this coder's threshold MIN_RANGE. For messages shorter
      than 2^30 symbols the table is one the coder accepts. */
  function CountFor(alphabetSize: nat, message: seq<nat>): (probs: seq<nat>)
    requires 1 <= alphabetSize <= MIN_RANGE
    requires forall i :: 0 <= i < |message| ==> message[i] < alphabetSize
    ensures |probs| == alphabetSize
    ensures |message| < 0x4000_0000 ==> Valid(Coder(probs))
  {
    if |message| < 0x4000_0000 then
      CountFits(alphabetSize, MIN_RANGE, message);
      Count(alphabetSize, MIN_RANGE, message)
    else
      Count(alphabetSize, MIN_RANGE, message)
  }

  // ---------------------------------------------------------------------
  // The interval
  // ---------------------------------------------------------------------

  /** The registers `low` and `range`, read as unsigned 32-bit numbers. */
  datatype Interval = Interval(low: nat, range: nat)

  const Start := Interval(0, FULL)

  /** What holds between symbols and between iterations of the loop: a
      non-empty interval of 32-bit numbers that ends at 2^32 at the latest,
      and ends exactly there only when the top byte of `low` is not 0 (so
      that the wrapped sum `low + range`, then 0, never seems to share the
      top byte of `low`). */
  predicate Inv(iv: Interval)
  {
    && iv.low < TWO_32 && 1 <= iv.range
    && iv.low + iv.range <= TWO_32
    && (iv.low + iv.range == TWO_32 ==> iv.low >= TOP)
  }

  /** The state a symbol is coded in: also at least MIN_RANGE wide. */
  predicate Ready(iv: Interval)
  {
    Inv(iv) && iv.range >= MIN_RANGE
  }

  /** `range / totalCount`, the width the interval gives one unit of
      frequency. Since range >= MIN_RANGE >= totalCount it is at least 1,
      and the whole table fits in the range. */
  function Unit(cd: Coder, iv: Interval): (r: nat)
    requires Valid(cd) && Ready(iv)
    ensures 1 <= r && Sum(cd.probs) * r <= iv.range
  {
    SlotInTable(cd.probs, MIN_RANGE, 0);
    DivGeIff(iv.range, Sum(cd.probs), 1);
    DivGeIff(iv.range, Sum(cd.probs), iv.range / Sum(cd.probs));
    iv.range / Sum(cd.probs)
  }

  /** The step for symbol c: `low += sumProbs[c] * r; range = probs[c] * r`
      with r = range / totalCount, in 32-bit arithmetic. Nothing wraps: the
      result is the non-empty slot [sumProbs[c]*r, (sumProbs[c]+probs[c])*r)
      of the interval, and it keeps the invariant. */
  function Narrow(cd: Coder, iv: Interval, c: nat): (n: Interval)
    requires Valid(cd) && Ready(iv) && c < |cd.probs|
    ensures Inv(n)
    ensures iv.low <= n.low && n.low + n.range <= iv.low + iv.range
    ensures n.low == iv.low + CumBefore(cd.probs, c) * Unit(cd, iv)
    ensures n.low + n.range == iv.low + (CumBefore(cd.probs, c) + cd.probs[c]) * Unit(cd, iv)
  {
    SlotInTable(cd.probs, MIN_RANGE, c);
    var u := Unit(cd, iv);
    var cum := CumBefore(cd.probs, c);
    Slot(iv.low, iv.range, cum, cd.probs[c], Sum(cd.probs), u)
  }

  /** The 32-bit computation of Narrow on plain numbers: low + cum*r and
      p*r, neither of which wraps. */
  function Slot(low: nat, range: nat, cum: nat, p: nat, total: nat, r: nat): (n: Interval)
    requires 1 <= p && cum + p <= total && 1 <= r && total * r <= range
    requires low + range <= TWO_32 && (low + range == TWO_32 ==> low >= TOP)
    ensures Inv(n)
    ensures n.low == low + cum * r && n.low + n.range == low + (cum + p) * r <= low + range
  {
    NarrowFits(low, range, cum, p, total, r);
    Interval(Wrap(low + cum * r), Wrap(p * r))
  }

  /** The slot [cum*r, (cum+p)*r) of an interval that keeps the invariant
      lies inside it and keeps the invariant too. */
  lemma NarrowFits(low: nat, range: nat, cum: nat, p: nat, total: nat, r: nat)
    requires 1 <= p && cum + p <= total && 1 <= r && total * r <= range
    requires low + range <= TWO_32 && (low + range == TWO_32 ==> low >= TOP)
    ensures low + cum * r < TWO_32 && 1 <= p * r < TWO_32
    ensures low + cum * r + p * r == low + (cum + p) * r <= low + range
    ensures low + cum * r + p * r == TWO_32 ==> low + cum * r >= TOP
  {
    MulMonoLeft(1, p, r);
    MulMonoLeft(cum + p, total, r);
    assert cum * r + p * r == (cum + p) * r;
  }

  // ---------------------------------------------------------------------
  // Renormalisation
  // ---------------------------------------------------------------------

  /** Which half of the unoptimized pair a shrink guard belongs to. */
  datatype Guard = EncoderGuard | DecoderGuard

  /** The two renormalisation loops: `encode`/`decode`, and
      `encodeUnoptimized`/`decodeUnoptimized` with their own guards. */
  datatype Variant = Optimized | Unoptimized(guard: Guard)

  predicate SameTop(a: nat, b: nat)
  {
    a / TOP == b / TOP
  }

  /** `compareUnsigned(low ^ (low + range), 0x1000000) < 0`: low and the
      wrapped 32-bit sum low + range have the same top byte. */
  predicate Converged(iv: Interval)
  {
    SameTop(iv.low, Wrap(iv.low + iv.range))
  }

  /** The loop condition: a settled top byte or a range below MIN_RANGE in
      `encode`, a range of at most MIN_RANGE in `encodeUnoptimized`. */
  predicate Continue(v: Variant, iv: Interval)
  {
    match v
    case Optimized => Converged(iv) || iv.range < MIN_RANGE
    case Unoptimized(_) => iv.range <= MIN_RANGE
  }

  /** `(low & mask) == mask` with mask = 0xfe0000: bits 17 to 23 of low are
      set, so low lies in the last MIN_RANGE block below a multiple of
      2^24. */
  predicate InLastBlock(low: nat)
  {
    (low / MIN_RANGE) % 128 == 127
  }

  /** The second half of the unoptimized shrink condition. The encoder's
      `range + (low & (MIN_RANGE - 1) - 1)` parses as `range + (low &
      (MIN_RANGE - 2))`, the low 17 bits of low with bit 0 cleared; the
      decoder's is `range + (low & (MIN_RANGE - 1)) - 1`. */
  predicate ShrinkGuard(g: Guard, iv: Interval)
  {
    match g
    case EncoderGuard => Wrap(iv.range + (iv.low % MIN_RANGE - iv.low % 2)) >= MIN_RANGE
    case DecoderGuard => Wrap(iv.range + iv.low % MIN_RANGE - 1) >= MIN_RANGE
  }

  /** The range after the `if` in the loop body. `encode` cuts it to
      `-low & (MIN_RANGE - 1)` when the range is small and the top byte has
      not settled; `encodeUnoptimized` cuts it to `MIN_RANGE - (low &
      (MIN_RANGE - 1))` when the interval reaches past the next multiple of
      2^24 from the last block below it. */
  function Adjusted(v: Variant, iv: Interval): nat
  {
    match v
    case Optimized =>
      if Converged(iv) then iv.range
      else if iv.range < MIN_RANGE then Wrap(-(iv.low as int)) % MIN_RANGE
      else iv.range
    case Unoptimized(g) =>
      if InLastBlock(iv.low) && ShrinkGuard(g, iv) then MIN_RANGE - iv.low % MIN_RANGE
      else iv.range
  }

  /** `0xff & (low >> 24)`: the byte the loop writes. */
  function TopByte(low: nat): Byte
  {
    (low / TOP) % 256
  }

  /** `low <<= 8; range <<= 8` in 32-bit arithmetic, after the `if`. */
  function Shifted(v: Variant, iv: Interval): Interval
  {
    Interval(Wrap(iv.low * 256), Wrap(Adjusted(v, iv) * 256))
  }

  /** The interval ends on a multiple of MIN_RANGE. Once a shrink has made
      it so, later shrinks leave the range as it is; this is why the loop
      terminates. */
  predicate Aligned(iv: Interval)
  {
    (iv.low + iv.range) % MIN_RANGE == 0
  }

  /** The bytes a renormalisation writes and the interval it leaves. */
  datatype Emitted = Emitted(iv: Interval, bytes: seq<Byte>)

  /** The renormalisation loop of the encoder: while the condition holds,
      adjust the range, write the top byte of low and shift. It leaves an
      interval ready for the next symbol, in which the condition fails. */
  function Renormalize(v: Variant, iv: Interval): (e: Emitted)
    requires Inv(iv)
    ensures Ready(e.iv) && !Continue(v, e.iv)
    decreases if Aligned(iv) then 0 else 1, TWO_32 - iv.range
  {
    if Continue(v, iv) then
      StepFacts(v, iv);
      var next := Renormalize(v, Shifted(v, iv));
      Emitted(next.iv, [TopByte(iv.low)] + next.bytes)
    else
      Emitted(iv, [])
  }

  /** The termination for a non-empty message: the four bytes of low, most
      significant first. */
  function Terminate(low: nat): (out: seq<Byte>)
    ensures |out| == 4
  {
    [(low / TOP) % 256, (low / 0x1_0000) % 256, (low / 256) % 256, low % 256]
  }

  /** The bytes written for the rest `msg` of a message from the interval
      `iv` on, the termination included. */
  function EncodeFrom(cd: Coder, v: Variant, iv: Interval, msg: seq<nat>): (out: seq<Byte>)
    requires Valid(cd) && Ready(iv) && InAlphabet(cd, msg)
    ensures |out| >= 4
    decreases |msg|
  {
    if |msg| == 0 then Terminate(iv.low)
    else
      var rn := Renormalize(v, Narrow(cd, iv, msg[0]));
      rn.bytes + EncodeFrom(cd, v, rn.iv, msg[1..])
  }

  /** `encode` or `encodeUnoptimized`: nothing at all for an empty message. */
  function EncodeWith(cd: Coder, v: Variant, msg: seq<nat>): (out: seq<Byte>)
    requires Valid(cd) && InAlphabet(cd, msg)
    ensures |out| == 0 <==> |msg| == 0
  {
    if |msg| == 0 then [] else EncodeFrom(cd, v, Start, msg)
  }

  function Encode(cd: Coder, msg: seq<nat>): seq<Byte>
    requires Valid(cd) && InAlphabet(cd, msg)
  {
    EncodeWith(cd, Optimized, msg)
  }

  function EncodeUnoptimized(cd: Coder, msg: seq<nat>): seq<Byte>
    requires Valid(cd) && InAlphabet(cd, msg)
  {
    EncodeWith(cd, Unoptimized(EncoderGuard), msg)
  }

  /** The registers the loop of `encode` or `encodeUnoptimized` (lines
      191-210, 139-155) leaves after coding `msg` from the interval `iv` on,
      and the bytes it writes, before the termination. */
  function Run(cd: Coder, v: Variant, iv: Interval, msg: seq<nat>): (e: Emitted)
    requires Valid(cd) && Ready(iv) && InAlphabet(cd, msg)
    ensures Ready(e.iv)
    decreases |msg|
  {
    if |msg| == 0 then Emitted(iv, [])
    else
      var rn := Renormalize(v, Narrow(cd, iv, msg[0]));
      var rest := Run(cd, v, rn.iv, msg[1..]);
      Emitted(rest.iv, rn.bytes + rest.bytes)
  }

  /** A coded message is the bytes the loop writes followed by the
      termination of the interval the loop leaves. */
  lemma {:induction false} RunEncodes(cd: Coder, v: Variant, iv: Interval, msg: seq<nat>)
    requires Valid(cd) && Ready(iv) && InAlphabet(cd, msg)
    ensures var e := Run(cd, v, iv, msg);
            EncodeFrom(cd, v, iv, msg) == e.bytes + Terminate(e.iv.low)
    decreases |msg|
  {
    if |msg| > 0 {
      var rn := Renormalize(v, Narrow(cd, iv, msg[0]));
      RunEncodes(cd, v, rn.iv, msg[1..]);
    }
  }

  // ---------------------------------------------------------------------
  // Decoding
  // ---------------------------------------------------------------------

  /** The decoder's symbol search: threshold = (value - low) / r as
      unsigned 32-bit numbers, then the scan for the slot holding it. A
      result equal to the alphabet size is the index at which Java would
      fail. */
  function DecodeSymbol(cd: Coder, iv: Interval, value: nat): (c: nat)
    requires Valid(cd) && Ready(iv)
    ensures c <= |cd.probs|
  {
    Scan(cd.probs, Wrap(value - iv.low) / Unit(cd, iv))
  }

  /** The decoder's registers and the position of the next byte it reads. */
  datatype DecoderState = DecoderState(iv: Interval, value: nat, next: nat)

  /** The decoder's renormalisation loop: the encoder's steps, with
      `value = (value << 8) | readNextByte()` in place of writing a byte
      (the byte fills the eight zero bits the shift leaves). */
  function DecRenormalize(v: Variant, src: seq<Byte>, iv: Interval, value: nat, next: nat): (st: DecoderState)
    requires Inv(iv)
    ensures Ready(st.iv) && !Continue(v, st.iv)
    decreases if Aligned(iv) then 0 else 1, TWO_32 - iv.range
  {
    if Continue(v, iv) then
      StepFacts(v, iv);
      DecRenormalize(v, src, Shifted(v, iv), Wrap(value * 256 + ByteAt(src, next)), next + 1)
    else
      DecoderState(iv, value, next)
  }

  /** `n` more symbols, or a failure where Java would index past the
      frequency table. */
  function DecodeFrom(cd: Coder, v: Variant, src: seq<Byte>, iv: Interval, value: nat, next: nat, n: nat)
    : (res: Outcome<seq<nat>>)
    requires Valid(cd) && Ready(iv)
    ensures res.Ok? ==> |res.value| == n && InAlphabet(cd, res.value)
    decreases n
  {
    if n == 0 then Ok([])
    else
      var c := DecodeSymbol(cd, iv, value);
      if c == |cd.probs| then Failure("symbol index past the frequency table")
      else
        var st := DecRenormalize(v, src, Narrow(cd, iv, c), value, next);
        Prepend(c, DecodeFrom(cd, v, src, st.iv, st.value, st.next, n - 1))
  }

  /** `decode` or `decodeUnoptimized`: `readFirstNumber` takes the first
      four bytes as the value, then `len` symbols follow. */
  function DecodeWith(cd: Coder, v: Variant, src: seq<Byte>, len: nat): (res: Outcome<seq<nat>>)
    requires Valid(cd)
    ensures res.Ok? ==> |res.value| == len && InAlphabet(cd, res.value)
  {
    DecodeFrom(cd, v, src, Start, Word(src, 0), 4, len)
  }

  function Decode(cd: Coder, src: seq<Byte>, len: nat): (res: Outcome<seq<nat>>)
    requires Valid(cd)
  {
    DecodeWith(cd, Optimized, src, len)
  }

  function DecodeUnoptimized(cd: Coder, src: seq<Byte>, len: nat): (res: Outcome<seq<nat>>)
    requires Valid(cd)
  {
    DecodeWith(cd, Unoptimized(DecoderGuard), src, len)
  }

  // ---------------------------------------------------------------------
  // One iteration of the loop
  // ---------------------------------------------------------------------

  /** A 32-bit number split into its top byte, its MIN_RANGE block inside
      that byte and its offset inside the block. */
  lemma Digits(x: nat)
    requires x < TWO_32
    ensures x == (x / TOP) * TOP + x % TOP && x / TOP < 256
    ensures x % TOP == ((x / MIN_RANGE) % 128) * MIN_RANGE + x % MIN_RANGE
  {
  }

  /** Shifting left by 8 keeps the low 24 bits, moved up. */
  lemma LowShift(x: nat)
    requires x < TWO_32
    ensures Wrap(x * 256) == (x % TOP) * 256
  {
    Digits(x);
    DivSplit(x / TOP, (x % TOP) * 256, TWO_32);
    assert x * 256 == (x / TOP) * TWO_32 + (x % TOP) * 256;
  }

  /** The shrink of `encode` as written, `-low & (MIN_RANGE - 1)`, equals
      the commented-out `MIN_RANGE - (low & (MIN_RANGE - 1))` exactly when
      low is not a multiple of MIN_RANGE. */
  lemma ShrinkForms(low: nat)
    requires low < TWO_32
    ensures Wrap(-(low as int)) % MIN_RANGE == MIN_RANGE - low % MIN_RANGE <==> low % MIN_RANGE != 0
  {
    var s := low % MIN_RANGE;
    var q := low / MIN_RANGE;
    assert low == q * MIN_RANGE + s && q < 0x8000;
    if low == 0 {
      assert Wrap(-(low as int)) == 0;
    } else {
      assert Wrap(-(low as int)) == TWO_32 - low;
      if s == 0 {
        assert TWO_32 - low == (0x8000 - q) * MIN_RANGE + 0;
        DivSplit(0x8000 - q, 0, MIN_RANGE);
      } else {
        assert TWO_32 - low == (0x8000 - q - 1) * MIN_RANGE + (MIN_RANGE - s);
        DivSplit(0x8000 - q - 1, MIN_RANGE - s, MIN_RANGE);
      }
    }
  }

  /** An interval that starts on a multiple of MIN_RANGE and is narrower
      than MIN_RANGE stays inside one block, so its top byte has settled.
      Hence when `encode` shrinks, low is not a multiple of MIN_RANGE. */
  lemma BlockStartSettles(iv: Interval)
    requires Inv(iv) && iv.range < MIN_RANGE
    ensures iv.low % MIN_RANGE == 0 ==> Converged(iv)
  {
    Digits(iv.low);
    var q := iv.low / TOP;
    var b := (iv.low / MIN_RANGE) % 128;
    if iv.low % MIN_RANGE == 0 {
      assert iv.low + iv.range < q * TOP + (b + 1) * MIN_RANGE <= (q + 1) * TOP <= TWO_32;
      DivUnique(iv.low + iv.range, TOP, q);
    }
  }

  /** What the range `a` after the `if` satisfies inside the loop: it is
      non-empty and no wider than before; the interval ends at or before the
      next multiple of 2^24, exactly there only if `a` is at most
      MIN_RANGE; an aligned interval keeps its range, and a changed range
      aligns the interval. */
  predicate AdjustOk(iv: Interval, a: nat)
  {
    && 1 <= a <= iv.range
    && iv.low % TOP + a <= TOP
    && (iv.low % TOP + a == TOP ==> a <= MIN_RANGE)
    && (Aligned(iv) ==> a == iv.range)
    && (a != iv.range ==> (iv.low + a) % MIN_RANGE == 0)
  }

  /** Leaving the range as it is. */
  lemma KeepOk(iv: Interval)
    requires 1 <= iv.range && iv.low % TOP + iv.range <= TOP
    requires iv.low % TOP + iv.range == TOP ==> iv.range <= MIN_RANGE
    ensures AdjustOk(iv, iv.range)
  {
  }

  /** Cutting a range of at most MIN_RANGE so that the interval ends at
      the end of low's block. */
  lemma CutOk(iv: Interval, a: nat)
    requires Inv(iv) && iv.range <= MIN_RANGE
    requires a == MIN_RANGE - iv.low % MIN_RANGE && a <= iv.range
    ensures AdjustOk(iv, a)
  {
    Digits(iv.low);
    var s := iv.low % MIN_RANGE;
    assert iv.low == (iv.low / MIN_RANGE) * MIN_RANGE + s;
    if Aligned(iv) {
      assert (s + iv.range) % MIN_RANGE == 0 by {
        ModAddMultiple(s + iv.range, iv.low / MIN_RANGE, MIN_RANGE);
      }
    }
    if a != iv.range {
      ModAddMultiple(0, iv.low / MIN_RANGE + 1, MIN_RANGE);
      assert iv.low + a == (iv.low / MIN_RANGE + 1) * MIN_RANGE + 0;
    }
  }

  /** What the range after the `if` of `encode` satisfies inside the loop. */
  lemma OptimizedAdjust(iv: Interval)
    requires Inv(iv) && (Converged(iv) || iv.range < MIN_RANGE)
    ensures AdjustOk(iv, Adjusted(Optimized, iv))
  {
    if Converged(iv) {
      ConvergedFits(iv);
      KeepOk(iv);
    } else {
      BlockStartSettles(iv);
      ShrinkForms(iv.low);
      UnsettledReach(iv);
      BlockEnd(iv.low);
      CutOk(iv, Adjusted(Optimized, iv));
    }
  }

  /** The end of low's block lies at or before the next multiple of 2^24. */
  lemma BlockEnd(low: nat)
    requires low < TWO_32
    ensures low + (MIN_RANGE - low % MIN_RANGE) <= (low / TOP + 1) * TOP
  {
    Digits(low);
  }

  /** A settled top byte keeps the whole interval below the next multiple
      of 2^24. */
  lemma ConvergedFits(iv: Interval)
    requires Inv(iv) && Converged(iv)
    ensures iv.low % TOP + iv.range < TOP
  {
    Digits(iv.low);
    EndWraps(iv);
    DivLeIff(iv.low + iv.range, TOP, iv.low / TOP);
  }

  /** An interval ending at 2^32 has not settled: the wrapped end is 0 and
      the top byte of low is not. */
  lemma EndWraps(iv: Interval)
    requires Inv(iv)
    ensures iv.low + iv.range == TWO_32 ==> !Converged(iv)
  {
    if iv.low + iv.range == TWO_32 {
      assert Wrap(iv.low + iv.range) == 0;
    }
  }

  /** An unsettled top byte means the interval reaches the next multiple
      of 2^24. */
  lemma UnsettledReach(iv: Interval)
    requires Inv(iv) && !Converged(iv)
    ensures iv.low + iv.range >= (iv.low / TOP + 1) * TOP
  {
    Digits(iv.low);
    var q := iv.low / TOP;
    if iv.low + iv.range < TWO_32 {
      DivMono(iv.low, iv.low + iv.range, TOP);
      DivGeIff(iv.low + iv.range, TOP, q + 1);
    }
  }

  /** What the range after the `if` of `encodeUnoptimized` and
      `decodeUnoptimized` satisfies inside the loop. */
  lemma UnoptimizedAdjust(g: Guard, iv: Interval)
    requires Inv(iv) && iv.range <= MIN_RANGE
    ensures AdjustOk(iv, Adjusted(Unoptimized(g), iv))
  {
    if InLastBlock(iv.low) && ShrinkGuard(g, iv) {
      GuardCut(g, iv);
      CutOk(iv, Adjusted(Unoptimized(g), iv));
    } else {
      GuardKeep(g, iv);
      KeepOk(iv);
    }
  }

  /** Either guard lets the cut through only when it makes the range no
      wider. */
  lemma GuardCut(g: Guard, iv: Interval)
    requires Inv(iv) && iv.range <= MIN_RANGE && ShrinkGuard(g, iv)
    ensures MIN_RANGE - iv.low % MIN_RANGE <= iv.range
  {
  }

  /** Without the cut the interval ends at or before the next multiple of
      2^24: from any other block because the range is at most MIN_RANGE,
      from the last block because the guard failed. */
  lemma GuardKeep(g: Guard, iv: Interval)
    requires Inv(iv) && iv.range <= MIN_RANGE && !(InLastBlock(iv.low) && ShrinkGuard(g, iv))
    ensures iv.low % TOP + iv.range <= TOP
  {
    Digits(iv.low);
    var s := iv.low % MIN_RANGE;
    assert iv.low % 2 == s % 2 by {
      assert iv.low == (iv.low / MIN_RANGE) * MIN_RANGE + s;
    }
  }

  lemma AdjustFacts(v: Variant, iv: Interval)
    requires Inv(iv) && Continue(v, iv)
    ensures AdjustOk(iv, Adjusted(v, iv))
  {
    match v
    case Optimized => OptimizedAdjust(iv);
    case Unoptimized(g) => UnoptimizedAdjust(g, iv);
  }

  /** One iteration keeps the invariant, and either makes the range 256
      times wider or aligns an interval that was not aligned. */
  lemma StepFacts(v: Variant, iv: Interval)
    requires Inv(iv) && Continue(v, iv)
    ensures Inv(Shifted(v, iv))
    ensures Shifted(v, iv).low == (iv.low % TOP) * 256
    ensures Shifted(v, iv).range == Adjusted(v, iv) * 256
    ensures Aligned(iv) ==> Aligned(Shifted(v, iv))
    ensures Shifted(v, iv).range > iv.range || (!Aligned(iv) && Aligned(Shifted(v, iv)))
  {
    AdjustFacts(v, iv);
    LowShift(iv.low);
    var m := iv.low % TOP;
    var a := Adjusted(v, iv);
    assert a < TOP;
    assert Wrap(a * 256) == a * 256;
    AlignedShift(iv.low, m, a);
  }

  lemma AlignedShift(low: nat, m: nat, a: nat)
    requires low < TWO_32 && m == low % TOP
    ensures (low + a) % MIN_RANGE == 0 ==> (m * 256 + a * 256) % MIN_RANGE == 0
  {
    Digits(low);
    if (low + a) % MIN_RANGE == 0 {
      var k := (low + a) / MIN_RANGE;
      assert low + a == k * MIN_RANGE;
      var q := low / TOP;
      assert m + a == (k - q * 128) * MIN_RANGE;
      assert m * 256 + a * 256 == ((k - q * 128) * 256) * MIN_RANGE;
      ModAddMultiple(0, (k - q * 128) * 256, MIN_RANGE);
    }
  }

  /** The two guards of the unoptimized pair disagree only when bit 0 of
      low is clear and the range reaches exactly the end of low's block. */
  lemma GuardsDiffer(iv: Interval)
    requires Inv(iv) && iv.range <= MIN_RANGE
    ensures ShrinkGuard(EncoderGuard, iv) != ShrinkGuard(DecoderGuard, iv)
        <==> iv.range + iv.low % MIN_RANGE == MIN_RANGE && iv.low % 2 == 0
  {
    var s := iv.low % MIN_RANGE;
    assert iv.low % 2 == s % 2 by {
      assert iv.low == (iv.low / MIN_RANGE) * MIN_RANGE + s;
    }
  }

  /** Where the guards disagree, the encoder's shrink leaves the range as
      it was, so both halves of the pair compute the same range. */
  lemma GuardsAgree(iv: Interval)
    requires Inv(iv) && iv.range <= MIN_RANGE
    ensures Adjusted(Unoptimized(EncoderGuard), iv) == Adjusted(Unoptimized(DecoderGuard), iv)
  {
    GuardsDiffer(iv);
  }

  // ---------------------------------------------------------------------
  // The encoder's bytes stay inside the interval
  // ---------------------------------------------------------------------

  /** The termination bytes read back as a big-endian word give low, as
      `readFirstNumber` assembles them. */
  lemma TerminateWord(low: nat)
    requires low < TWO_32
    ensures Word(Terminate(low), 0) == low
  {
    var t := Terminate(low);
    var b0, b1, b2, b3 := low / TOP % 256, low / 0x1_0000 % 256, low / 256 % 256, low % 256;
    assert ByteAt(t, 0) == b0 && ByteAt(t, 1) == b1 && ByteAt(t, 2) == b2 && ByteAt(t, 3) == b3;
    DivDiv(low, 256, 256);
    DivDiv(low, 0x1_0000, 256);
    assert low / TOP == b0;
    assert low / 0x1_0000 == b0 * 256 + b1;
    assert low / 256 == (b0 * 256 + b1) * 256 + b2;
    assert low == ((b0 * 256 + b1) * 256 + b2) * 256 + b3;
  }

  /** A byte written by one iteration in front of a stream whose first
      word lies in the shifted interval gives a stream whose first word
      lies in the interval before the shift. */
  lemma StepWithin(v: Variant, iv: Interval, t: seq<Byte>)
    requires Inv(iv) && Continue(v, iv)
    requires Shifted(v, iv).low <= Word(t, 0) < Shifted(v, iv).low + Shifted(v, iv).range
    ensures iv.low <= Word([TopByte(iv.low)] + t, 0) < iv.low + iv.range
  {
    StepFacts(v, iv);
    AdjustFacts(v, iv);
    WordCons(TopByte(iv.low), t);
    PrefixBound(iv.low, Adjusted(v, iv), Word(t, 0));
  }

  /** The arithmetic of StepWithin: the top byte of low followed by a word
      in [m*256, (m+a)*256), m = low % 2^24, cut back to 32 bits, lies in
      [low, low + a). */
  lemma PrefixBound(low: nat, a: nat, w: nat)
    requires low < TWO_32 && 1 <= a
    requires (low % TOP) * 256 <= w < (low % TOP) * 256 + a * 256
    ensures low <= (low / TOP % 256) * TOP + w / 256 < low + a
  {
    Digits(low);
    var m := low % TOP;
    DivGeIff(w, 256, m);
    DivLeIff(w, 256, m + a - 1);
  }

  /** A renormalisation widens the interval back out: when the stream after
      its bytes starts inside the interval it leaves, its bytes followed by
      that stream start inside the interval it began with. */
  lemma {:induction false} RenormWithin(v: Variant, iv: Interval, t: seq<Byte>)
    requires Inv(iv)
    requires Renormalize(v, iv).iv.low <= Word(t, 0) < Renormalize(v, iv).iv.low + Renormalize(v, iv).iv.range
    ensures iv.low <= Word(Renormalize(v, iv).bytes + t, 0) < iv.low + iv.range
    decreases if Aligned(iv) then 0 else 1, TWO_32 - iv.range
  {
    if Continue(v, iv) {
      StepFacts(v, iv);
      var s := Shifted(v, iv);
      RenormWithin(v, s, t);
      ConcatAssoc([TopByte(iv.low)], Renormalize(v, s).bytes, t);
      StepWithin(v, iv, Renormalize(v, s).bytes + t);
    } else {
      assert Renormalize(v, iv).bytes + t == t;
    }
  }

  /** Every stream the encoder writes from a ready interval starts, read as
      a 32-bit word, inside that interval. */
  lemma {:induction false} EncodeWithin(cd: Coder, v: Variant, iv: Interval, msg: seq<nat>)
    requires Valid(cd) && Ready(iv) && InAlphabet(cd, msg)
    ensures iv.low <= Word(EncodeFrom(cd, v, iv, msg), 0) < iv.low + iv.range
    decreases |msg|
  {
    if |msg| == 0 {
      TerminateWord(iv.low);
    } else {
      var n := Narrow(cd, iv, msg[0]);
      var rn := Renormalize(v, n);
      EncodeWithin(cd, v, rn.iv, msg[1..]);
      RenormWithin(v, n, EncodeFrom(cd, v, rn.iv, msg[1..]));
    }
  }

  // ---------------------------------------------------------------------
  // The decoder follows the encoder
  // ---------------------------------------------------------------------

  /** The decoder's symbol search finds c exactly when the value lies in
      the interval the encoder narrows to for c. */
  lemma SymbolIff(cd: Coder, iv: Interval, value: nat, c: nat)
    requires Valid(cd) && Ready(iv) && iv.low <= value < iv.low + iv.range && c < |cd.probs|
    ensures DecodeSymbol(cd, iv, value) == c
        <==> Narrow(cd, iv, c).low <= value < Narrow(cd, iv, c).low + Narrow(cd, iv, c).range
  {
    var r := Unit(cd, iv);
    var d := value - iv.low;
    assert Wrap(value - iv.low) == d;
    DivLeSelf(d, r);
    ScanFindsSlot(cd.probs, MIN_RANGE, d / r, c);
    TruncatedThreshold(d, r, CumBefore(cd.probs, c), CumBefore(cd.probs, c) + cd.probs[c]);
  }

  /** The search runs off the table exactly when the value lies in the top
      part of the interval that no symbol's slot covers, at or beyond
      totalCount * r. */
  lemma SymbolOffTable(cd: Coder, iv: Interval, value: nat)
    requires Valid(cd) && Ready(iv) && iv.low <= value < iv.low + iv.range
    ensures DecodeSymbol(cd, iv, value) == |cd.probs| <==> value - iv.low >= Sum(cd.probs) * Unit(cd, iv)
  {
    var r := Unit(cd, iv);
    var d := value - iv.low;
    assert Wrap(value - iv.low) == d;
    DivLeSelf(d, r);
    ScanOffTable(cd.probs, MIN_RANGE, d / r);
    DivGeIff(d, r, Sum(cd.probs));
  }

  /** An encoder and a decoder running the same loop: `encode` with
      `decode`, `encodeUnoptimized` with `decodeUnoptimized`. */
  predicate Mirrored(ve: Variant, vd: Variant)
  {
    (ve.Optimized? && vd.Optimized?) || (ve.Unoptimized? && vd.Unoptimized?)
  }

  lemma StepAgree(ve: Variant, vd: Variant, iv: Interval)
    requires Inv(iv) && Mirrored(ve, vd)
    ensures Continue(ve, iv) == Continue(vd, iv)
    ensures Continue(ve, iv) ==> Shifted(ve, iv) == Shifted(vd, iv)
  {
    if ve.Unoptimized? && iv.range <= MIN_RANGE {
      GuardsAgree(iv);
      assert Adjusted(ve, iv) == Adjusted(vd, iv) by {
        assert ve == Unoptimized(EncoderGuard) || ve == Unoptimized(DecoderGuard);
        assert vd == Unoptimized(EncoderGuard) || vd == Unoptimized(DecoderGuard);
      }
    }
  }

  /** Shifting the next byte into the value slides its window one byte
      along the stream. */
  lemma ShiftIn(g: seq<Byte>, e: seq<Byte>, t: Byte, value: nat, next: nat)
    requires value == Word(g, |e|) && next == |e| + 4
    ensures Wrap(value * 256 + ByteAt(g, next)) == Word(g, |e + [t]|)
  {
    WordNext(g, |e|);
    assert |e + [t]| == |e| + 1;
  }

  /** The decoder's state matches the encoder's after it wrote `rn.bytes`
      behind `e`: the same interval, the value is the stream's word just
      past those bytes and the reader is four bytes further on. */
  predicate InStep(g: seq<Byte>, e: seq<Byte>, rn: Emitted, st: DecoderState)
  {
    && st.iv == rn.iv
    && st.value == Word(g, |e + rn.bytes|)
    && st.next == |e + rn.bytes| + 4
  }

  /** Moving one written byte from the prefix to the front of the bytes. */
  lemma InStepPrepend(g: seq<Byte>, e: seq<Byte>, t: Byte, rn: Emitted, st: DecoderState)
    requires InStep(g, e + [t], rn, st)
    ensures InStep(g, e, Emitted(rn.iv, [t] + rn.bytes), st)
  {
    ConcatAssoc(e, [t], rn.bytes);
  }

  /** Started with the value equal to the word at position |e| and the
      reader just past it, the decoder's renormalisation stays in step with
      the encoder's. */
  lemma {:induction false} DecRenormSync(ve: Variant, vd: Variant, g: seq<Byte>, e: seq<Byte>, iv: Interval, value: nat, next: nat)
    requires Inv(iv) && Mirrored(ve, vd)
    requires value == Word(g, |e|) && next == |e| + 4
    ensures InStep(g, e, Renormalize(ve, iv), DecRenormalize(vd, g, iv, value, next))
    decreases if Aligned(iv) then 0 else 1, TWO_32 - iv.range
  {
    StepAgree(ve, vd, iv);
    if Continue(ve, iv) {
      StepFacts(ve, iv);
      var t := TopByte(iv.low);
      ShiftIn(g, e, t, value, next);
      DecRenormSync(ve, vd, g, e + [t], Shifted(ve, iv), Wrap(value * 256 + ByteAt(g, next)), next + 1);
      StepSync(ve, vd, g, e, iv, value, next, Shifted(ve, iv), Wrap(value * 256 + ByteAt(g, next)));
    } else {
      assert e + Renormalize(ve, iv).bytes == e;
    }
  }

  /** One iteration of both loops followed by the rest in step is the
      whole of both loops in step. */
  lemma StepSync(ve: Variant, vd: Variant, g: seq<Byte>, e: seq<Byte>, iv: Interval, value: nat, next: nat,
                 s: Interval, v2: nat)
    requires Inv(iv) && Continue(ve, iv) && Continue(vd, iv) && Inv(s)
    requires s == Shifted(ve, iv) && s == Shifted(vd, iv) && v2 == Wrap(value * 256 + ByteAt(g, next))
    requires InStep(g, e + [TopByte(iv.low)], Renormalize(ve, s), DecRenormalize(vd, g, s, v2, next + 1))
    ensures InStep(g, e, Renormalize(ve, iv), DecRenormalize(vd, g, iv, value, next))
  {
    var rn := Renormalize(ve, s);
    var st := DecRenormalize(vd, g, s, v2, next + 1);
    InStepPrepend(g, e, TopByte(iv.low), rn, st);
  }

  /** The word at position |e| of e + t is the first word of t. */
  lemma WordAfter(e: seq<Byte>, t: seq<Byte>)
    ensures Word(e + t, |e|) == Word(t, 0)
  {
    WordShift(e, t, 0);
    assert |e| + 0 == |e|;
  }

  /** A decoder whose value is the stream's word at |e|, where the encoder
      wrote `msg` from the same interval, decodes msg[0]. */
  lemma SymbolSync(cd: Coder, ve: Variant, g: seq<Byte>, e: seq<Byte>, iv: Interval, msg: seq<nat>, value: nat)
    requires Valid(cd) && Ready(iv) && InAlphabet(cd, msg) && |msg| > 0
    requires g == e + EncodeFrom(cd, ve, iv, msg)
    requires value == Word(g, |e|)
    ensures DecodeSymbol(cd, iv, value) == msg[0]
  {
    var n := Narrow(cd, iv, msg[0]);
    var rn := Renormalize(ve, n);
    var rest := EncodeFrom(cd, ve, rn.iv, msg[1..]);
    assert EncodeFrom(cd, ve, iv, msg) == rn.bytes + rest;
    WordAfter(e, rn.bytes + rest);
    EncodeWithin(cd, ve, rn.iv, msg[1..]);
    RenormWithin(ve, n, rest);
    SymbolIff(cd, iv, value, msg[0]);
  }

  /** One symbol of the round trip: the decoder reads msg[0] and lands in
      step with the encoder after it. */
  lemma Advance(cd: Coder, ve: Variant, vd: Variant, g: seq<Byte>, e: seq<Byte>, iv: Interval, msg: seq<nat>, value: nat, next: nat)
    returns (rn: Emitted, st: DecoderState)
    requires Valid(cd) && Mirrored(ve, vd) && Ready(iv) && InAlphabet(cd, msg) && |msg| > 0
    requires g == e + EncodeFrom(cd, ve, iv, msg)
    requires value == Word(g, |e|) && next == |e| + 4
    ensures Ready(rn.iv) && InAlphabet(cd, msg[1..]) && InStep(g, e, rn, st)
    ensures g == (e + rn.bytes) + EncodeFrom(cd, ve, rn.iv, msg[1..])
    ensures DecodeFrom(cd, vd, g, iv, value, next, |msg|)
         == Prepend(msg[0], DecodeFrom(cd, vd, g, st.iv, st.value, st.next, |msg[1..]|))
  {
    var n := Narrow(cd, iv, msg[0]);
    rn := Renormalize(ve, n);
    st := DecRenormalize(vd, g, n, value, next);
    SymbolSync(cd, ve, g, e, iv, msg, value);
    DecRenormSync(ve, vd, g, e, n, value, next);
    ConcatAssoc(e, rn.bytes, EncodeFrom(cd, ve, rn.iv, msg[1..]));
    assert |msg[1..]| == |msg| - 1;
  }

  lemma {:induction false} DecodeFromSync(cd: Coder, ve: Variant, vd: Variant, g: seq<Byte>, e: seq<Byte>, iv: Interval, msg: seq<nat>, value: nat, next: nat)
    requires Valid(cd) && Mirrored(ve, vd) && Ready(iv) && InAlphabet(cd, msg)
    requires g == e + EncodeFrom(cd, ve, iv, msg)
    requires value == Word(g, |e|) && next == |e| + 4
    ensures DecodeFrom(cd, vd, g, iv, value, next, |msg|) == Ok(msg)
    decreases |msg|
  {
    if |msg| > 0 {
      var rn, st := Advance(cd, ve, vd, g, e, iv, msg, value, next);
      DecodeFromSync(cd, ve, vd, g, e + rn.bytes, st.iv, msg[1..], st.value, st.next);
      PrependHead(msg);
    }
  }

  /** A decoder run with the same loop as the encoder returns the message. */
  lemma RoundTripWith(cd: Coder, ve: Variant, vd: Variant, msg: seq<nat>)
    requires Valid(cd) && Mirrored(ve, vd) && InAlphabet(cd, msg)
    ensures DecodeWith(cd, vd, EncodeWith(cd, ve, msg), |msg|) == Ok(msg)
  {
    if |msg| > 0 {
      var g := EncodeFrom(cd, ve, Start, msg);
      var e: seq<Byte> := [];
      assert g == e + g;
      DecodeFromSync(cd, ve, vd, g, e, Start, msg, Word(g, 0), 4);
    }
  }

  /** `decode(encode(message), message.length)` returns the message. */
  lemma RoundTrip(cd: Coder, msg: seq<nat>)
    requires Valid(cd) && InAlphabet(cd, msg)
    ensures Decode(cd, Encode(cd, msg), |msg|) == Ok(msg)
  {
    RoundTripWith(cd, Optimized, Optimized, msg);
  }

  /** `decodeUnoptimized(encodeUnoptimized(message), message.length)`
      returns the message, although the two use different shrink guards. */
  lemma UnoptimizedRoundTrip(cd: Coder, msg: seq<nat>)
    requires Valid(cd) && InAlphabet(cd, msg)
    ensures DecodeUnoptimized(cd, EncodeUnoptimized(cd, msg), |msg|) == Ok(msg)
  {
    RoundTripWith(cd, Unoptimized(EncoderGuard), Unoptimized(DecoderGuard), msg);
  }

  /** The round trip with the table `count` builds from the message itself,
      as the driver programs use the coder. */
  lemma CountedRoundTrip(alphabetSize: nat, msg: seq<nat>)
    requires 1 <= alphabetSize <= MIN_RANGE && |msg| < 0x4000_0000
    requires forall i :: 0 <= i < |msg| ==> msg[i] < alphabetSize
    ensures Valid(Coder(CountFor(alphabetSize, msg)))
    ensures Decode(Coder(CountFor(alphabetSize, msg)), Encode(Coder(CountFor(alphabetSize, msg)), msg), |msg|) == Ok(msg)
  {
    RoundTrip(Coder(CountFor(alphabetSize, msg)), msg);
  }

  // ---------------------------------------------------------------------
  // The assert after the narrowing step fails
  // ---------------------------------------------------------------------

  /** The assert after the narrowing step (lines 145, 197, 275 and 329),
      `(low & 0xffffffffL) + range - 1 < (1L << 32) - 1`, where the int
      `range` is widened with its sign. */
  predicate EndAssert(iv: Interval)
    requires iv.range < TWO_32
  {
    iv.low + Signed(iv.range) - 1 < TWO_32 - 1
  }

  /** The table [1, 1]: each symbol takes half of the interval. */
  lemma {:induction false} EvenNarrow(iv: Interval, c: nat)
    requires Ready(iv) && c < 2
    ensures Valid(Coder([1, 1]))
    ensures Narrow(Coder([1, 1]), iv, c) == Interval(iv.low + c * (iv.range / 2), iv.range / 2)
  {
    PairTable(1, 1);
  }

  /** The loop does not run. */
  lemma {:induction false} Quiet(v: Variant, iv: Interval)
    requires Inv(iv) && !Continue(v, iv)
    ensures Renormalize(v, iv) == Emitted(iv, [])
  {
  }

  /** A symbol over the table [1, 1] that leaves the interval `n`, whose
      top byte has not settled and whose range is above MIN_RANGE, so that
      neither loop runs. */
  lemma {:induction false} HalfQuiet(v: Variant, iv: Interval, c: nat, n: Interval)
    requires Ready(iv) && c < 2
    requires n.low == iv.low + c * (iv.range / 2) && n.range == iv.range / 2
    requires MIN_RANGE < n.range && n.low + n.range < TWO_32 && n.low / TOP != (n.low + n.range) / TOP
    ensures Valid(Coder([1, 1]))
    ensures Renormalize(v, Narrow(Coder([1, 1]), iv, c)).iv == n
  {
    EvenNarrow(iv, c);
    assert Wrap(n.low + n.range) == n.low + n.range;
    Quiet(v, n);
  }

  /** Both loops from low = 0xFFFFFF, range = 0x1FFFF: three iterations,
      each cutting the range to the end of low's block, leave
      low = 0xFF000000 and range = 2^24. */
  lemma {:induction false} ShrinkChain(v: Variant)
    requires v == Optimized || v == Unoptimized(EncoderGuard)
    ensures Renormalize(v, Interval(0xFF_FFFF, 0x1_FFFF)).iv == Interval(0xFF00_0000, TOP)
  {
    var a := Interval(0xFF_FFFF, 0x1_FFFF);
    var b := Interval(0xFFFF_FF00, 0x100);
    var c := Interval(0xFFFF_0000, 0x1_0000);
    var d := Interval(0xFF00_0000, TOP);
    assert Wrap(a.low + a.range) == 0x101_FFFE && Wrap(b.low + b.range) == 0 && Wrap(c.low + c.range) == 0;
    assert Wrap(-(a.low as int)) == 0xFF00_0001 && Wrap(-(b.low as int)) == 0x100 && Wrap(-(c.low as int)) == 0x1_0000;
    assert Continue(v, a) && Shifted(v, a) == b;
    assert Continue(v, b) && Shifted(v, b) == c;
    assert Continue(v, c) && Shifted(v, c) == d;
    assert Wrap(d.low + d.range) == 0;
    Quiet(v, d);
  }

  /** `ivs[k]` is the interval symbol k of `msg` is coded in, and
      `ivs[|msg|]` the one the loop leaves after the last symbol. */
  ghost predicate Trace(cd: Coder, v: Variant, ivs: seq<Interval>, msg: seq<nat>)
    requires Valid(cd) && InAlphabet(cd, msg)
  {
    && |ivs| == |msg| + 1
    && (forall k :: 0 <= k < |ivs| ==> Ready(ivs[k]))
    && (forall k :: 0 <= k < |msg| ==> Renormalize(v, Narrow(cd, ivs[k], msg[k])).iv == ivs[k + 1])
  }

  /** A trace of the loop ends where the loop does. */
  lemma {:induction false} TraceRuns(cd: Coder, v: Variant, ivs: seq<Interval>, msg: seq<nat>)
    requires Valid(cd) && InAlphabet(cd, msg) && Trace(cd, v, ivs, msg)
    ensures Run(cd, v, ivs[0], msg).iv == ivs[|msg|]
    decreases |msg|
  {
    if |msg| > 0 {
      var ivs', msg' := ivs[1..], msg[1..];
      forall k | 0 <= k < |msg'|
        ensures Renormalize(v, Narrow(cd, ivs'[k], msg'[k])).iv == ivs'[k + 1]
      {
        assert ivs'[k] == ivs[k + 1] && msg'[k] == msg[k + 1] && ivs'[k + 1] == ivs[k + 2];
      }
      assert Trace(cd, v, ivs', msg');
      TraceRuns(cd, v, ivs', msg');
    }
  }

  /** The message of the finding below: sixteen symbols over the table
      [1, 1], all 0 but the eighth and the last. */
  function ProbeSymbol(k: int): (c: nat)
    ensures c < 2
  {
    if k == 7 || k == 15 then 1 else 0
  }

  function Probe(): (msg: seq<nat>)
    ensures InAlphabet(Coder([1, 1]), msg)
  {
    seq(16, k requires 0 <= k => ProbeSymbol(k))
  }

  /** The interval both loops code symbol k of the message in, for k up to
      14, and the one they leave after symbol 14. */
  function ProbeInterval(k: int): Interval
  {
    if k == 0 then Start
    else if k == 1 then Interval(0, 0x7FFF_FFFF)
    else if k == 2 then Interval(0, 0x3FFF_FFFF)
    else if k == 3 then Interval(0, 0x1FFF_FFFF)
    else if k == 4 then Interval(0, 0xFFF_FFFF)
    else if k == 5 then Interval(0, 0x7FF_FFFF)
    else if k == 6 then Interval(0, 0x3FF_FFFF)
    else if k == 7 then Interval(0, 0x1FF_FFFF)
    else if k == 8 then Interval(0xFF_FFFF, 0xFF_FFFF)
    else if k == 9 then Interval(0xFF_FFFF, 0x7F_FFFF)
    else if k == 10 then Interval(0xFF_FFFF, 0x3F_FFFF)
    else if k == 11 then Interval(0xFF_FFFF, 0x1F_FFFF)
    else if k == 12 then Interval(0xFF_FFFF, 0xF_FFFF)
    else if k == 13 then Interval(0xFF_FFFF, 0x7_FFFF)
    else if k == 14 then Interval(0xFF_FFFF, 0x3_FFFF)
    else Interval(0xFF00_0000, TOP)
  }

  function ProbeIntervals(): seq<Interval>
  {
    seq(16, ProbeInterval)
  }

  /** Symbols 0 to 3: the range halves from the full range. */
  lemma {:induction false} ProbeHalves(v: Variant, k: nat)
    requires k < 4
    ensures Valid(Coder([1, 1])) && Ready(ProbeInterval(k))
    ensures Renormalize(v, Narrow(Coder([1, 1]), ProbeInterval(k), ProbeSymbol(k))).iv == ProbeInterval(k + 1)
  {
    if k == 0 { HalfQuiet(v, ProbeInterval(0), 0, ProbeInterval(1)); }
    else if k == 1 { HalfQuiet(v, ProbeInterval(1), 0, ProbeInterval(2)); }
    else if k == 2 { HalfQuiet(v, ProbeInterval(2), 0, ProbeInterval(3)); }
    else { HalfQuiet(v, ProbeInterval(3), 0, ProbeInterval(4)); }
  }

  /** Symbols 4 to 7: three more halvings, then the upper half. */
  lemma {:induction false} ProbeUpper(v: Variant, k: nat)
    requires 4 <= k < 8
    ensures Valid(Coder([1, 1])) && Ready(ProbeInterval(k))
    ensures Renormalize(v, Narrow(Coder([1, 1]), ProbeInterval(k), ProbeSymbol(k))).iv == ProbeInterval(k + 1)
  {
    if k == 4 { HalfQuiet(v, ProbeInterval(4), 0, ProbeInterval(5)); }
    else if k == 5 { HalfQuiet(v, ProbeInterval(5), 0, ProbeInterval(6)); }
    else if k == 6 { HalfQuiet(v, ProbeInterval(6), 0, ProbeInterval(7)); }
    else { HalfQuiet(v, ProbeInterval(7), 1, ProbeInterval(8)); }
  }

  /** Symbols 8 to 13: the range halves again. */
  lemma {:induction false} ProbeLower(v: Variant, k: nat)
    requires 8 <= k < 14
    ensures Valid(Coder([1, 1])) && Ready(ProbeInterval(k))
    ensures Renormalize(v, Narrow(Coder([1, 1]), ProbeInterval(k), ProbeSymbol(k))).iv == ProbeInterval(k + 1)
  {
    if k == 8 { HalfQuiet(v, ProbeInterval(8), 0, ProbeInterval(9)); }
    else if k == 9 { HalfQuiet(v, ProbeInterval(9), 0, ProbeInterval(10)); }
    else if k == 10 { HalfQuiet(v, ProbeInterval(10), 0, ProbeInterval(11)); }
    else if k == 11 { HalfQuiet(v, ProbeInterval(11), 0, ProbeInterval(12)); }
    else if k == 12 { HalfQuiet(v, ProbeInterval(12), 0, ProbeInterval(13)); }
    else { HalfQuiet(v, ProbeInterval(13), 0, ProbeInterval(14)); }
  }

  /** Symbol 14 sets off the shrink chain. */
  lemma {:induction false} ProbeShrinks(v: Variant)
    requires v == Optimized || v == Unoptimized(EncoderGuard)
    ensures Valid(Coder([1, 1])) && Ready(ProbeInterval(14)) && Ready(ProbeInterval(15))
    ensures Renormalize(v, Narrow(Coder([1, 1]), ProbeInterval(14), ProbeSymbol(14))).iv == ProbeInterval(15)
  {
    EvenNarrow(ProbeInterval(14), 0);
    ShrinkChain(v);
  }

  /** Symbol k of the message, for k up to 14, moves the interval from
      entry k of the list to entry k + 1. */
  lemma {:induction false} ProbeStep(v: Variant, k: nat)
    requires v == Optimized || v == Unoptimized(EncoderGuard)
    requires k < 15
    ensures Valid(Coder([1, 1])) && Ready(ProbeInterval(k)) && Ready(ProbeInterval(k + 1))
    ensures Renormalize(v, Narrow(Coder([1, 1]), ProbeInterval(k), ProbeSymbol(k))).iv == ProbeInterval(k + 1)
  {
    ProbeShrinks(v);
    if k < 4 { ProbeHalves(v, k); ProbeHalves(v, 3); ProbeUpper(v, 4); }
    else if k < 8 { ProbeUpper(v, k); ProbeUpper(v, 7); ProbeLower(v, 8); }
    else if k < 14 { ProbeLower(v, k); ProbeLower(v, 13); }
    if k < 3 { ProbeHalves(v, k + 1); }
    else if 4 <= k < 7 { ProbeUpper(v, k + 1); }
    else if 8 <= k < 13 { ProbeLower(v, k + 1); }
  }

  /** The first fifteen symbols of the message, by position. */
  lemma {:induction false} ProbePrefix(k: nat)
    requires k < 15
    ensures |Probe()[..15]| == 15 && Probe()[..15][k] == ProbeSymbol(k)
  {
  }

  /** Both loops code the first fifteen symbols of the message in the
      intervals listed. */
  lemma {:induction false} ProbeTrace(v: Variant)
    requires v == Optimized || v == Unoptimized(EncoderGuard)
    ensures Valid(Coder([1, 1])) && InAlphabet(Coder([1, 1]), Probe()[..15])
    ensures Trace(Coder([1, 1]), v, ProbeIntervals(), Probe()[..15])
  {
    PairTable(1, 1);
    var m := Probe()[..15];
    var ivs := ProbeIntervals();
    forall k | 0 <= k < |ivs|
      ensures Ready(ivs[k])
    {
      if k < 15 { ProbeStep(v, k); } else { ProbeStep(v, 14); }
    }
    forall k | 0 <= k < |m|
      ensures Renormalize(v, Narrow(Coder([1, 1]), ivs[k], m[k])).iv == ivs[k + 1]
    {
      ProbePrefix(k);
      ProbeStep(v, k);
    }
  }

  /** The input of the finding: the table [1, 1] and a message whose last
      symbol is narrowed from low = 0xFF000000, range = 2^24. */
  predicate FailsAtEnd(v: Variant)
  {
    var cd := Coder([1, 1]);
    var msg := Probe();
    && Valid(cd) && InAlphabet(cd, msg)
    && var iv := Run(cd, v, Start, msg[..15]).iv;
    && iv == Interval(0xFF00_0000, TOP)
    && var n := Narrow(cd, iv, msg[15]);
    && n == Interval(0xFF80_0000, 0x80_0000)
    && Inv(n) && n.low + n.range == TWO_32 && !EndAssert(n)
  }

  /** Lines 197 and 145 as written: both encoders reach, after fifteen
      symbols, an interval whose narrowing to the last symbol ends exactly
      at 2^32, so the assert fails (with assertions enabled, `encode` and
      `encodeUnoptimized` throw AssertionError). The interval is a proper
      one, and the model codes on from it as the code without assertions
      does. */
  lemma {:induction false} EndAssertFails()
    ensures FailsAtEnd(Optimized) && FailsAtEnd(Unoptimized(EncoderGuard))
  {
    EndAssertReached(Optimized);
    EndAssertReached(Unoptimized(EncoderGuard));
  }

  /** Both loops leave low = 0xFF000000, range = 2^24 after the first
      fifteen symbols. */
  lemma {:induction false} ProbeReaches(v: Variant)
    requires v == Optimized || v == Unoptimized(EncoderGuard)
    ensures Valid(Coder([1, 1])) && InAlphabet(Coder([1, 1]), Probe()[..15])
    ensures Run(Coder([1, 1]), v, Start, Probe()[..15]).iv == Interval(0xFF00_0000, TOP)
  {
    ProbeTrace(v);
    var ivs := ProbeIntervals();
    assert ivs[0] == Start && ivs[15] == Interval(0xFF00_0000, TOP);
    TraceRuns(Coder([1, 1]), v, ivs, Probe()[..15]);
  }

  /** The last symbol: the upper half of low = 0xFF000000, range = 2^24
      ends at 2^32 and fails the assert. */
  lemma {:induction false} EndNarrow()
    ensures Valid(Coder([1, 1]))
    ensures var n := Narrow(Coder([1, 1]), Interval(0xFF00_0000, TOP), 1);
      && n == Interval(0xFF80_0000, 0x80_0000)
      && Inv(n) && n.low + n.range == TWO_32 && !EndAssert(n)
  {
    EvenNarrow(Interval(0xFF00_0000, TOP), 1);
    assert Signed(0x80_0000) == 0x80_0000;
  }

  lemma {:induction false} EndAssertReached(v: Variant)
    requires v == Optimized || v == Unoptimized(EncoderGuard)
    ensures FailsAtEnd(v)
  {
    ProbeReaches(v);
    EndNarrow();
    assert Probe()[15] == 1;
  }
}
