/** The frequency model the three coders share: `count` (identical in the
    three classes apart from its threshold), the cumulative table
    `sumProbs`/`totalCount`, and the decoder's scan for the symbol whose
    cumulative slot contains a threshold. */
module Frequency {
  import opened NatMath

  function Sum(s: seq<nat>): nat
  {
    if |s| == 0 then 0 else s[0] + Sum(s[1..])
  }

  /** `sumProbs[c]`: the total frequency of the symbols before `c`. */
  function CumBefore(probs: seq<nat>, c: nat): nat
    requires c <= |probs|
  {
    Sum(probs[..c])
  }

  /** The two-symbol table [a, b]: its total and slot starts. */
  lemma PairTable(a: nat, b: nat)
    ensures Sum([a, b]) == a + b
    ensures CumBefore([a, b], 0) == 0 && CumBefore([a, b], 1) == a
  {
    assert [a, b][1..] == [b] && [b][1..] == [];
    assert Sum([b]) == b;
    assert [a, b][..0] == [] && [a, b][..1] == [a] && [a][1..] == [];
    assert Sum([a]) == a;
  }

  /** A table the coders accept: at least one symbol, every frequency at
      least one, and a total no larger than the coder's limit. */
  predicate ValidTable(probs: seq<nat>, limit: nat)
  {
    && |probs| >= 1
    && (forall i :: 0 <= i < |probs| ==> probs[i] >= 1)
    && Sum(probs) <= limit
  }

  // ---------------------------------------------------------------------
  // Facts about Sum
  // ---------------------------------------------------------------------

  lemma {:induction false} SumConcat(a: seq<nat>, b: seq<nat>)
    ensures Sum(a + b) == Sum(a) + Sum(b)
    decreases |a|
  {
    if |a| > 0 {
      assert (a + b)[1..] == a[1..] + b;
      SumConcat(a[1..], b);
    } else {
      assert a + b == b;
    }
  }

  lemma SumPrefixStep(s: seq<nat>, c: nat)
    requires c < |s|
    ensures Sum(s[..c + 1]) == Sum(s[..c]) + s[c]
  {
    assert s[..c + 1] == s[..c] + [s[c]];
    SumConcat(s[..c], [s[c]]);
  }

  lemma {:induction false} SumPrefixLe(s: seq<nat>, c: nat, d: nat)
    requires c <= d <= |s|
    ensures Sum(s[..c]) <= Sum(s[..d])
    decreases d - c
  {
    if c < d {
      SumPrefixStep(s, c);
      SumPrefixLe(s, c + 1, d);
    }
  }

  lemma SumWhole(s: seq<nat>)
    ensures Sum(s[..|s|]) == Sum(s)
  {
    assert s[..|s|] == s;
  }

  /** With every frequency positive, the slot of symbol c ends at or before
      the start of any later symbol's slot. */
  lemma SlotsOrdered(probs: seq<nat>, c: nat, d: nat)
    requires c < d <= |probs|
    ensures CumBefore(probs, c) + probs[c] <= CumBefore(probs, d)
  {
    SumPrefixStep(probs, c);
    SumPrefixLe(probs, c + 1, d);
  }

  /** A symbol's slot lies inside [0, total). */
  lemma SlotInTable(probs: seq<nat>, limit: nat, c: nat)
    requires ValidTable(probs, limit) && c < |probs|
    ensures 1 <= probs[c] && CumBefore(probs, c) + probs[c] <= Sum(probs)
  {
    SumPrefixStep(probs, c);
    SumPrefixLe(probs, c + 1, |probs|);
    SumWhole(probs);
  }

  lemma EntryLeSum(s: seq<nat>, i: nat)
    requires i < |s|
    ensures s[i] <= Sum(s)
  {
    SumPrefixStep(s, i);
    SumPrefixLe(s, i + 1, |s|);
    SumWhole(s);
  }

  lemma SumUpdate(s: seq<nat>, i: nat, v: nat)
    requires i < |s|
    ensures Sum(s[i := v]) + s[i] == Sum(s) + v
  {
    var t := s[i := v];
    assert s == s[..i] + [s[i]] + s[i + 1..];
    assert t == s[..i] + [v] + s[i + 1..];
    SumConcat(s[..i] + [s[i]], s[i + 1..]);
    SumConcat(s[..i], [s[i]]);
    SumConcat(s[..i] + [v], s[i + 1..]);
    SumConcat(s[..i], [v]);
  }

  // ---------------------------------------------------------------------
  // count
  // ---------------------------------------------------------------------

  /** Java's `prob > maxCount` compares signed 32-bit ints. */
  function Signed(x: nat): int
    requires x < TWO_32
  {
    if x < 0x8000_0000 then x else x - TWO_32
  }

  /** The raw occurrence counters (32-bit ints) and the running maximum
      after the first loop of `count` has seen a prefix of the message. */
  datatype Tally = Tally(raw: seq<nat>, maxCount: nat)

  ghost predicate Words(tl: Tally)
  {
    tl.maxCount < TWO_32 && forall j :: 0 <= j < |tl.raw| ==> tl.raw[j] < TWO_32
  }

  function Doubled(raw: seq<nat>): (d: seq<nat>)
    ensures |d| == |raw|
    ensures forall j :: 0 <= j < |raw| ==> d[j] < TWO_32
    ensures forall j :: 0 <= j < |raw| && raw[j] == 0 ==> d[j] == 0
  {
    seq(|raw|, j requires 0 <= j < |raw| => Wrap(2 * raw[j]))
  }

  /** One iteration of the first loop of `count`: increment the symbol's
      counter; when it becomes the new maximum and that maximum equals the
      threshold, shift every counter (and the maximum) left by one bit. */
  function TallyStep(prev: Tally, symbol: nat, threshold: nat): (tl: Tally)
    requires Words(prev) && symbol < |prev.raw|
    ensures Words(tl) && |tl.raw| == |prev.raw|
    ensures forall j :: 0 <= j < |prev.raw| && j != symbol && prev.raw[j] == 0 ==> tl.raw[j] == 0
  {
    var prob := Wrap(prev.raw[symbol] + 1);
    var raw := prev.raw[symbol := prob];
    if Signed(prob) > Signed(prev.maxCount) then
      if prob == threshold then Tally(Doubled(raw), Wrap(2 * prob))
      else Tally(raw, prob)
    else Tally(raw, prev.maxCount)
  }

  /** The first loop of `count` over message[..n]. */
  function TallyPrefix(alphabetSize: nat, threshold: nat, message: seq<nat>, n: nat): (tl: Tally)
    requires n <= |message|
    requires forall i :: 0 <= i < |message| ==> message[i] < alphabetSize
    ensures Words(tl) && |tl.raw| == alphabetSize
    ensures forall j :: 0 <= j < alphabetSize && j !in message[..n] ==> tl.raw[j] == 0
  {
    if n == 0 then Tally(seq(alphabetSize, _ => 0), 0)
    else
      assert message[..n] == message[..n - 1] + [message[n - 1]];
      TallyStep(TallyPrefix(alphabetSize, threshold, message, n - 1), message[n - 1], threshold)
  }

  /** `totalCount >>>= 1` applied k times. */
  function Halved(total: nat, k: nat): (r: nat)
    ensures r <= total
  {
    if k == 0 then total else Halved(total / 2, k - 1)
  }

  /** The `shiftBits` loop: halve the total until total + alphabetSize,
      added and compared as unsigned 32-bit ints, is at most the
      threshold; the result is the number of halvings. */
  function Halvings(total: nat, alphabetSize: nat, threshold: nat): (s: nat)
    requires alphabetSize <= threshold < TWO_32
    ensures Wrap(Halved(total, s) + alphabetSize) <= threshold
    decreases total
  {
    if Wrap(total + alphabetSize) > threshold then
      var s := Halvings(total / 2, alphabetSize, threshold);
      assert Halved(total, s + 1) == Halved(total / 2, s);
      s + 1
    else 0
  }

  lemma {:induction false} HalvedIsShift(total: nat, k: nat)
    ensures Halved(total, k) == total / Pow2(k)
    decreases k
  {
    if k > 0 {
      HalvedIsShift(total / 2, k - 1);
      HalveTwice(total, k - 1);
    }
  }

  /** One counter after the final scaling loop of count: shifted right and
      raised to one when it became zero. */
  function ScaleOne(x: nat, shift: nat): (v: nat)
    requires x < TWO_32
    ensures 1 <= v < TWO_32
    ensures x == 0 ==> v == 1
    ensures v == if x / Pow2(shift % 32) == 0 then 1 else x / Pow2(shift % 32)
  {
    var d := Pow2(shift % 32);
    DivLeSelf(x, d);
    DivGeIff(x, d, 0);
    var q := x / d;
    if q == 0 then 1 else q
  }

  function Scale(raw: seq<nat>, shift: nat): (probs: seq<nat>)
    requires forall i :: 0 <= i < |raw| ==> raw[i] < TWO_32
    ensures |probs| == |raw|
    ensures forall i :: 0 <= i < |raw| ==> probs[i] == ScaleOne(raw[i], shift)
  {
    if |raw| == 0 then [] else [ScaleOne(raw[0], shift)] + Scale(raw[1..], shift)
  }

  /** `count`: the frequency table for a message over symbols
      0..alphabetSize-1. Every entry is a positive 32-bit value and every
      symbol that does not occur gets exactly one. */
  function Count(alphabetSize: nat, threshold: nat, message: seq<nat>): (probs: seq<nat>)
    requires 1 <= alphabetSize <= threshold < 0x8000_0000
    requires forall i :: 0 <= i < |message| ==> message[i] < alphabetSize
    ensures |probs| == alphabetSize
    ensures forall i :: 0 <= i < alphabetSize ==> 1 <= probs[i] < TWO_32
    ensures forall j :: 0 <= j < alphabetSize && j !in message ==> probs[j] == 1
  {
    var tl := TallyPrefix(alphabetSize, threshold, message, |message|);
    assert message[..|message|] == message;
    var total := Wrap(Sum(tl.raw));
    Scale(tl.raw, Halvings(total, alphabetSize, threshold))
  }

  // ---------------------------------------------------------------------
  // count keeps the total within the threshold
  // ---------------------------------------------------------------------

  /** What the first loop of count keeps while no counter can wrap: every
      counter is at most the maximum; before the maximum reaches the
      threshold the counters sum to the prefix length, afterwards (they
      were doubled once) to at most twice that. */
  ghost predicate TallyInvariant(tl: Tally, threshold: nat, n: nat)
  {
    && (forall j :: 0 <= j < |tl.raw| ==> tl.raw[j] <= tl.maxCount)
    && tl.maxCount <= Sum(tl.raw)
    && ((tl.maxCount < threshold && Sum(tl.raw) == n) || (threshold < tl.maxCount && Sum(tl.raw) <= 2 * n))
  }

  lemma {:induction false} SumDoubled(raw: seq<nat>)
    requires forall j :: 0 <= j < |raw| ==> 2 * raw[j] < TWO_32
    ensures Sum(Doubled(raw)) == 2 * Sum(raw)
    decreases |raw|
  {
    if |raw| > 0 {
      assert Doubled(raw)[1..] == Doubled(raw[1..]);
      SumDoubled(raw[1..]);
    }
  }

  lemma TallyStepBounded(prev: Tally, symbol: nat, threshold: nat, n: nat)
    requires Words(prev) && symbol < |prev.raw|
    requires 1 <= threshold && 2 * (n + 1) < 0x8000_0000
    requires TallyInvariant(prev, threshold, n)
    ensures TallyInvariant(TallyStep(prev, symbol, threshold), threshold, n + 1)
  {
    var tl := TallyStep(prev, symbol, threshold);
    var prob := prev.raw[symbol] + 1;
    var raw := prev.raw[symbol := prob];
    assert Sum(raw) == Sum(prev.raw) + 1 && prob <= Sum(raw) by {
      SumUpdate(prev.raw, symbol, prob);
      EntryLeSum(raw, symbol);
    }
    if prob > prev.maxCount && prob == threshold {
      assert tl == Tally(Doubled(raw), 2 * prob);
      DoubledBounded(raw, prob, symbol, n);
    } else {
      assert forall j :: 0 <= j < |raw| ==> raw[j] <= tl.maxCount;
    }
  }

  /** The doubling branch of count's first loop keeps the invariant: the
      maximum passed the threshold and the sum at most doubled. */
  lemma DoubledBounded(raw: seq<nat>, prob: nat, symbol: nat, n: nat)
    requires symbol < |raw| && raw[symbol] == prob && Sum(raw) == n + 1
    requires forall j :: 0 <= j < |raw| ==> raw[j] <= prob
    requires 2 * (n + 1) < 0x8000_0000
    ensures forall j :: 0 <= j < |raw| ==> Doubled(raw)[j] <= 2 * prob
    ensures 2 * prob <= Sum(Doubled(raw)) <= 2 * (n + 1)
  {
    EntryLeSum(raw, symbol);
    SumDoubled(raw);
    EntryLeSum(Doubled(raw), symbol);
  }

  lemma {:induction false} TallyBounded(alphabetSize: nat, threshold: nat, message: seq<nat>, n: nat)
    requires 1 <= threshold
    requires n <= |message| < 0x4000_0000
    requires forall i :: 0 <= i < |message| ==> message[i] < alphabetSize
    ensures TallyInvariant(TallyPrefix(alphabetSize, threshold, message, n), threshold, n)
    decreases n
  {
    if n == 0 {
      SumZeros(alphabetSize);
    } else {
      TallyBounded(alphabetSize, threshold, message, n - 1);
      TallyStepBounded(TallyPrefix(alphabetSize, threshold, message, n - 1), message[n - 1], threshold, n - 1);
    }
  }

  lemma {:induction false} SumZeros(n: nat)
    ensures Sum(seq(n, _ => 0)) == 0
    decreases n
  {
    if n > 0 {
      assert seq(n, _ => 0)[1..] == seq(n - 1, _ => 0);
      SumZeros(n - 1);
    }
  }

  lemma {:induction false} HalvingsBound(total: nat, alphabetSize: nat, threshold: nat, k: nat)
    requires alphabetSize <= threshold < TWO_32
    requires total < Pow2(k)
    ensures Halvings(total, alphabetSize, threshold) <= k
    decreases total
  {
    if Wrap(total + alphabetSize) > threshold {
      assert total > 0;
      assert k > 0;
      DivLeIff(total, 2, Pow2(k - 1) - 1);
      HalvingsBound(total / 2, alphabetSize, threshold, k - 1);
    }
  }

  lemma ScaleHead(raw: seq<nat>, shift: nat)
    requires |raw| > 0 && forall i :: 0 <= i < |raw| ==> raw[i] < TWO_32
    ensures Sum(Scale(raw, shift)) <= raw[0] / Pow2(shift % 32) + 1 + Sum(Scale(raw[1..], shift))
  {
    var rest := Scale(raw[1..], shift);
    var v := raw[0] / Pow2(shift % 32);
    var head := if v == 0 then 1 else v;
    assert Scale(raw, shift) == [head] + rest;
    assert ([head] + rest)[1..] == rest;
  }

  lemma {:induction false} ScaleSum(raw: seq<nat>, shift: nat)
    requires forall i :: 0 <= i < |raw| ==> raw[i] < TWO_32
    ensures Sum(Scale(raw, shift)) <= Sum(raw) / Pow2(shift % 32) + |raw|
    decreases |raw|
  {
    if |raw| > 0 {
      var d := Pow2(shift % 32);
      ScaleHead(raw, shift);
      ScaleSum(raw[1..], shift);
      DivAddLe(raw[0], Sum(raw[1..]), d);
      Chain(Sum(Scale(raw, shift)), Sum(Scale(raw[1..], shift)), raw[0] / d, Sum(raw[1..]) / d, Sum(raw) / d, |raw|);
    } else {
      DivGeIff(0, Pow2(shift % 32), 0);
    }
  }

  lemma NoWrap(a: nat, b: nat)
    requires a < 0x8000_0000 && b < 0x8000_0000
    ensures Wrap(a + b) == a + b
  {
  }

  lemma Chain(total: int, rest: int, head: int, restBound: int, whole: int, n: int)
    requires total <= head + 1 + rest
    requires rest <= restBound + n - 1
    requires head + restBound <= whole
    ensures total <= whole + n
  {
  }

  /** The promise made in the comments of `count` and checked by its final
      assert: the frequencies sum to at most the threshold. It holds as
      long as no 32-bit counter can wrap, which messages shorter than 2^30
      guarantee. */
  lemma CountFits(alphabetSize: nat, threshold: nat, message: seq<nat>)
    requires 1 <= alphabetSize <= threshold < 0x8000_0000
    requires |message| < 0x4000_0000
    requires forall i :: 0 <= i < |message| ==> message[i] < alphabetSize
    ensures ValidTable(Count(alphabetSize, threshold, message), threshold)
  {
    var tl := TallyPrefix(alphabetSize, threshold, message, |message|);
    assert message[..|message|] == message;
    assert Sum(tl.raw) < 0x8000_0000 by {
      TallyBounded(alphabetSize, threshold, message, |message|);
    }
    ScaledTotal(tl.raw, alphabetSize, threshold);
  }

  /** The final scaling of count brings the sum of counters below 2^31
      within the threshold. */
  lemma ScaledTotal(raw: seq<nat>, alphabetSize: nat, threshold: nat)
    requires 1 <= alphabetSize <= threshold < 0x8000_0000 && |raw| == alphabetSize
    requires forall j :: 0 <= j < |raw| ==> raw[j] < TWO_32
    requires Sum(raw) < 0x8000_0000
    ensures Sum(Scale(raw, Halvings(Wrap(Sum(raw)), alphabetSize, threshold))) <= threshold
  {
    var total := Sum(raw);
    assert Wrap(total) == total;
    var s := Halvings(total, alphabetSize, threshold);
    HalvingsFit(total, alphabetSize, threshold);
    assert s % 32 == s;
    ScaleSum(raw, s);
    assert Halved(total, s) == total / Pow2(s % 32) by {
      HalvedIsShift(total, s);
    }
  }

  /** Without wrap-around the halving loop stops after at most 31 steps
      with the halved total plus the alphabet size within the threshold. */
  lemma HalvingsFit(total: nat, alphabetSize: nat, threshold: nat)
    requires total < 0x8000_0000 && alphabetSize <= threshold < 0x8000_0000
    ensures Halvings(total, alphabetSize, threshold) < 32
    ensures Halved(total, Halvings(total, alphabetSize, threshold)) + alphabetSize <= threshold
  {
    var s := Halvings(total, alphabetSize, threshold);
    assert s <= 31 by {
      Pow2Values();
      HalvingsBound(total, alphabetSize, threshold, 31);
    }
    NoWrap(Halved(total, s), alphabetSize);
  }

  // ---------------------------------------------------------------------
  // The cumulative table
  // ---------------------------------------------------------------------

  lemma WrapAdd(a: int, b: int)
    ensures Wrap(Wrap(a) + b) == Wrap(a + b)
  {
    var q := a / TWO_32;
    assert a == q * TWO_32 + Wrap(a);
    ModAddMultiple(Wrap(a) + b, q, TWO_32);
  }

  /** The table both `encode` and `decode` build before coding: sumProbs[c]
      is the frequency of every symbol before c and totalCount that of all
      symbols, each as a 32-bit int. The coders use `CumBefore` and `Sum`
      directly; this method ties the loop that builds the table to them. */
  method CumulativeTable(probs: seq<nat>) returns (sumProbs: seq<nat>, totalCount: nat)
    requires |probs| >= 1
    ensures |sumProbs| == |probs|
    ensures forall c :: 0 <= c < |probs| ==> sumProbs[c] == CumBefore(probs, c) % TWO_32
    ensures totalCount == Sum(probs) % TWO_32
  {
    sumProbs := [];
    var i := 0;
    while i < |probs|
      invariant 0 <= i <= |probs|
      invariant |sumProbs| == i
      invariant forall c :: 0 <= c < i ==> sumProbs[c] == CumBefore(probs, c) % TWO_32
    {
      var next := 0;
      if i > 0 {
        next := Wrap(sumProbs[i - 1] + probs[i - 1]);
        SumPrefixStep(probs, i - 1);
        WrapAdd(CumBefore(probs, i - 1), probs[i - 1]);
      }
      sumProbs := sumProbs + [next];
      i := i + 1;
    }
    var last := |probs| - 1;
    totalCount := Wrap(sumProbs[last] + probs[last]);
    SumPrefixStep(probs, last);
    WrapAdd(CumBefore(probs, last), probs[last]);
    SumWhole(probs);
  }

  // ---------------------------------------------------------------------
  // The decoder's symbol scan
  // ---------------------------------------------------------------------

  /** The decoder's loop `for (c = 0; c < alphabetSize; c++) if
      (sumProbs[c] + probs[c] >u threshold) break;` started at c. */
  function ScanFrom(probs: seq<nat>, threshold: nat, c: nat): (r: nat)
    requires c <= |probs|
    ensures c <= r <= |probs|
    ensures r < |probs| ==> Wrap(CumBefore(probs, r) + probs[r]) > threshold
    ensures forall k :: c <= k < r ==> Wrap(CumBefore(probs, k) + probs[k]) <= threshold
    decreases |probs| - c
  {
    if c == |probs| then c
    else if Wrap(CumBefore(probs, c) + probs[c]) > threshold then c
    else ScanFrom(probs, threshold, c + 1)
  }

  function Scan(probs: seq<nat>, threshold: nat): (r: nat)
    ensures r <= |probs|
  {
    ScanFrom(probs, threshold, 0)
  }

  /** The scan finds symbol c exactly when the threshold falls in c's slot
      [sumProbs[c], sumProbs[c] + probs[c]) of a valid table. */
  lemma ScanFindsSlot(probs: seq<nat>, limit: nat, threshold: nat, c: nat)
    requires ValidTable(probs, limit) && limit < TWO_32 && threshold < TWO_32
    requires c < |probs|
    ensures Scan(probs, threshold) == c <==>
              CumBefore(probs, c) <= threshold < CumBefore(probs, c) + probs[c]
  {
    var r := Scan(probs, threshold);
    var n := |probs|;
    SumWhole(probs);
    SumPrefixStep(probs, c);
    SumPrefixLe(probs, c + 1, n);
    if r < n {
      SumPrefixStep(probs, r);
      SumPrefixLe(probs, r + 1, n);
      if r < c {
        SlotsOrdered(probs, r, c);
      }
    }
    if c > 0 {
      SumPrefixStep(probs, c - 1);
    }
  }

  /** The scan runs off the table exactly when the threshold is at least the
      total frequency. */
  lemma ScanOffTable(probs: seq<nat>, limit: nat, threshold: nat)
    requires ValidTable(probs, limit) && limit < TWO_32 && threshold < TWO_32
    ensures Scan(probs, threshold) == |probs| <==> Sum(probs) <= threshold
  {
    var r := Scan(probs, threshold);
    var n := |probs|;
    SumWhole(probs);
    SumPrefixStep(probs, n - 1);
    if r < n {
      SumPrefixStep(probs, r);
      SumPrefixLe(probs, r + 1, n);
    }
  }

  // ---------------------------------------------------------------------
  // Locating the symbol from the decoder's offset
  // ---------------------------------------------------------------------

  /** A point of [0, total] scaled onto [0, range] by floor division, as
      ArithmeticCoder and RangeCoder place a cumulative frequency in their
      interval. */
  function Scaled(x: nat, range: nat, total: nat): nat
    requires total >= 1
  {
    DivGeIff(x * range, total, 0);
    x * range / total
  }

  /** A symbol's slot scaled from [0, total) onto [0, range) is non-empty
      and stays inside the range. */
  lemma ScaledSlot(cum: nat, p: nat, range: nat, total: nat)
    requires 1 <= p && cum + p <= total <= range
    ensures Scaled(cum, range, total) + 1 <= Scaled(cum + p, range, total) <= range
  {
    assert (cum + p) * range == cum * range + p * range;
    DivAddLe(cum * range, p * range, total);
    MulDivMono(1, p, range, total);
    DivGeIff(range, total, 1);
    MulDivMono(cum + p, total, range, total);
    DivSplit(range, 0, total);
    assert total * range == range * total + 0;
  }

  /** For the coders that scale by range/total with floor division
      (ArithmeticCoder, RangeCoder): the decoder's threshold
      ((d + 1) * total - 1) / range lies in [lo, hi) exactly when the offset
      d of the value from the interval's start lies in the scaled slot
      [lo*range/total, hi*range/total). */
  lemma FloorThreshold(d: nat, range: nat, total: nat, lo: nat, hi: nat)
    requires total >= 1 && range >= 1
    ensures lo <= ((d + 1) * total - 1) / range < hi
        <==> Scaled(lo, range, total) <= d < Scaled(hi, range, total)
  {
    var y := (d + 1) * total - 1;
    DivGeIff(y, range, lo);
    DivGeIff(y, range, hi);
    DivLeIff(lo * range, total, d);
    DivLeIff(hi * range, total, d);
  }

  /** For CarrylessRangeCoder, which scales by r = range/total first: the
      threshold d / r lies in [lo, hi) exactly when d lies in [lo*r, hi*r). */
  lemma TruncatedThreshold(d: nat, r: nat, lo: nat, hi: nat)
    requires r >= 1
    ensures lo <= d / r < hi <==> lo * r <= d < hi * r
  {
    DivGeIff(d, r, lo);
    DivGeIff(d, r, hi);
  }
}
