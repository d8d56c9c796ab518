/** Byte streams as the coders see them: what `ByteArrayOutputStream`
    collects and what `ByteArrayInputStream.read()` hands back. */
module Bytes {
  import opened NatMath

  type Byte = b: int | 0 <= b < 256

  /** `readNextByte`: the byte at position i, or 0 once the stream is
      exhausted (read() returns -1 and every reader maps that to 0). */
  function ByteAt(s: seq<Byte>, i: nat): (b: Byte)
    ensures i >= |s| ==> b == 0
  {
    if i < |s| then s[i] else 0
  }

  /** The four bytes at position k read big-endian (as `readFirstNumber`
      of the range coders assembles them). */
  function Word(s: seq<Byte>, k: nat): (w: nat)
    ensures w < TWO_32
  {
    ((ByteAt(s, k) * 256 + ByteAt(s, k + 1)) * 256 + ByteAt(s, k + 2)) * 256 + ByteAt(s, k + 3)
  }

  /** Reading past the end of a prefix is the same as reading from the
      full stream at the shifted position. */
  lemma ByteAtShift(e: seq<Byte>, t: seq<Byte>, i: nat)
    ensures ByteAt(e + t, |e| + i) == ByteAt(t, i)
  {
  }

  lemma WordShift(e: seq<Byte>, t: seq<Byte>, k: nat)
    ensures Word(e + t, |e| + k) == Word(t, k)
  {
    ByteAtShift(e, t, k);
    ByteAtShift(e, t, k + 1);
    ByteAtShift(e, t, k + 2);
    ByteAtShift(e, t, k + 3);
    assert |e| + k + 1 == |e| + (k + 1);
    assert |e| + k + 2 == |e| + (k + 2);
    assert |e| + k + 3 == |e| + (k + 3);
  }

  /** The window after a leading byte: w(t :: rest) = t * 2^24 + w(rest) / 256. */
  lemma WordCons(t: Byte, rest: seq<Byte>)
    ensures Word([t] + rest, 0) == t * 0x100_0000 + Word(rest, 0) / 256
  {
    var r := rest;
    assert ByteAt([t] + r, 1) == ByteAt(r, 0);
    assert ByteAt([t] + r, 2) == ByteAt(r, 1);
    assert ByteAt([t] + r, 3) == ByteAt(r, 2);
    var low := (ByteAt(r, 0) * 256 + ByteAt(r, 1)) * 256 + ByteAt(r, 2);
    DivSplit(low, ByteAt(r, 3), 256);
  }

  /** Sliding the window by one byte: shift left by 8, drop the top byte,
      bring in the next one. */
  lemma WordNext(s: seq<Byte>, k: nat)
    ensures (Word(s, k) * 256 + ByteAt(s, k + 4)) % TWO_32 == Word(s, k + 1)
  {
    var hi := ByteAt(s, k);
    var w1 := Word(s, k + 1);
    assert Word(s, k) * 256 + ByteAt(s, k + 4) == hi * TWO_32 + w1;
    DivSplit(hi, w1, TWO_32);
  }

  // ---------------------------------------------------------------------
  // Byte strings read as numbers
  // ---------------------------------------------------------------------

  function Pow256(k: nat): (r: nat)
    ensures r >= 1
  {
    if k == 0 then 1 else 256 * Pow256(k - 1)
  }

  /** The first n bytes of s as a big-endian number (bytes past the end
      count as 0, as the readers deliver them). */
  function Num(s: seq<Byte>, n: nat): (v: nat)
    ensures v < Pow256(n)
  {
    if n == 0 then 0 else Num(s, n - 1) * 256 + ByteAt(s, n - 1)
  }

  /** `n` copies of byte b, as a loop `for (j = 0; j < n; j++) write(b)`. */
  function Repeat(b: Byte, n: nat): (s: seq<Byte>)
    ensures |s| == n
  {
    seq(n, _ => b)
  }

  /** The number a prefix P of a stream reads as does not depend on what
      follows it. */
  lemma {:induction false} NumOfPrefix(p: seq<Byte>, t: seq<Byte>, n: nat)
    requires n <= |p|
    ensures Num(p + t, n) == Num(p, n)
  {
    if n > 0 {
      NumOfPrefix(p, t, n - 1);
    }
  }

  /** A byte appended at the end: one more base-256 digit. */
  lemma NumSnoc(s: seq<Byte>, b: Byte)
    ensures Num(s + [b], |s| + 1) == Num(s, |s|) * 256 + b
  {
    NumOfPrefix(s, [b], |s|);
  }

  /** A run of n bytes b reads as b * (256^n - 1) / 255: 256^n - 1 for
      0xFF and 0 for 0x00. */
  lemma {:induction false} NumRepeat(x: seq<Byte>, b: Byte, n: nat)
    requires b == 0 || b == 0xFF
    ensures Num(x + Repeat(b, n), |x| + n)
         == Num(x, |x|) * Pow256(n) + (if b == 0 then 0 else Pow256(n) - 1)
  {
    if n > 0 {
      var y := x + Repeat(b, n - 1);
      NumRepeat(x, b, n - 1);
      assert x + Repeat(b, n) == y + [b];
      NumSnoc(y, b);
      assert |y| + 1 == |x| + n;
      RepeatDigit(Num(x, |x|), Pow256(n - 1), b);
    } else {
      assert x + Repeat(b, 0) == x;
    }
  }

  lemma RepeatDigit(v: nat, p: nat, b: Byte)
    requires b == 0 || b == 0xFF
    ensures (v * p + (if b == 0 then 0 else p - 1)) * 256 + b
         == v * (256 * p) + (if b == 0 then 0 else 256 * p - 1)
  {
  }
}
