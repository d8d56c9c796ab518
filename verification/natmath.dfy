/** Powers of two and the facts about integer division that the interval
    arguments of the three coders rest on. */
module NatMath {
  const TWO_32: nat := 0x1_0000_0000

  /** A 32-bit Java int (or the low 32 bits of a long), read as unsigned. */
  type U32 = x: int | 0 <= x < 0x1_0000_0000

  /** Truncation of a Java int or long result to 32 bits. */
  function Wrap(x: int): (r: nat)
    ensures r < TWO_32
    ensures 0 <= x < TWO_32 ==> r == x
    ensures (r - x) % TWO_32 == 0
  {
    x % TWO_32
  }

  /** Java's long division, which truncates toward zero. */
  function JavaDiv(x: int, d: nat): (q: int)
    requires d > 0
    ensures x >= 0 ==> q == x / d
  {
    if x >= 0 then x / d else -((-x) / d)
  }

  function Pow2(n: nat): (r: nat)
    ensures r >= 1
  {
    if n == 0 then 1 else 2 * Pow2(n - 1)
  }

  /** The powers of two the coders use as constants. */
  lemma Pow2Values()
    ensures Pow2(1) == 2 && Pow2(2) == 4 && Pow2(7) == 128 && Pow2(8) == 256
    ensures Pow2(15) == 0x8000 && Pow2(16) == 0x1_0000 && Pow2(17) == 0x2_0000
    ensures Pow2(23) == 0x80_0000 && Pow2(24) == 0x100_0000
    ensures Pow2(30) == 0x4000_0000 && Pow2(31) == 0x8000_0000 && Pow2(32) == TWO_32
  {
    assert Pow2(1) == 2;
    assert Pow2(2) == 4;
    assert Pow2(3) == 8;
    assert Pow2(4) == 16;
    assert Pow2(5) == 32;
    assert Pow2(6) == 64;
    assert Pow2(7) == 128;
    assert Pow2(8) == 256;
    assert Pow2(9) == 512;
    assert Pow2(10) == 1024;
    assert Pow2(11) == 2048;
    assert Pow2(12) == 4096;
    assert Pow2(13) == 8192;
    assert Pow2(14) == 16384;
    assert Pow2(15) == 0x8000;
    assert Pow2(16) == 0x1_0000;
    assert Pow2(17) == 0x2_0000;
    assert Pow2(18) == 0x4_0000;
    assert Pow2(19) == 0x8_0000;
    assert Pow2(20) == 0x10_0000;
    assert Pow2(21) == 0x20_0000;
    assert Pow2(22) == 0x40_0000;
    assert Pow2(23) == 0x80_0000;
    assert Pow2(24) == 0x100_0000;
    assert Pow2(25) == 0x200_0000;
    assert Pow2(26) == 0x400_0000;
    assert Pow2(27) == 0x800_0000;
    assert Pow2(28) == 0x1000_0000;
    assert Pow2(29) == 0x2000_0000;
    assert Pow2(30) == 0x4000_0000;
    assert Pow2(31) == 0x8000_0000;
  }

  lemma Pow2Byte()
    ensures Pow2(8) == 256
  {
    Pow2Values();
  }

  lemma {:induction false} Pow2Add(a: nat, b: nat)
    ensures Pow2(a + b) == Pow2(a) * Pow2(b)
    decreases a
  {
    if a > 0 {
      Pow2Add(a - 1, b);
      calc {
        Pow2(a + b);
        2 * Pow2(a - 1 + b);
        2 * (Pow2(a - 1) * Pow2(b));
        (2 * Pow2(a - 1)) * Pow2(b);
      }
    }
  }

  lemma Pow2Mono(a: nat, b: nat)
    requires a <= b
    ensures Pow2(a) <= Pow2(b)
  {
    Pow2Add(a, b - a);
    MulLe(Pow2(a), Pow2(b - a));
  }

  lemma MulLe(x: nat, y: nat)
    requires y >= 1
    ensures x <= x * y
  {
  }

  lemma MulMonoLeft(a: int, b: int, c: nat)
    requires a <= b
    ensures a * c <= b * c
  {
  }

  /** Euclidean division: the quotient is at most q exactly when y lies
      below the next multiple. */
  lemma DivLeIff(y: int, d: int, q: int)
    requires d > 0
    ensures y / d <= q <==> y < (q + 1) * d
  {
    var k := y / d;
    assert y == d * k + y % d;
    if k <= q {
      MulMonoLeft(k + 1, q + 1, d);
    } else {
      MulMonoLeft(q + 1, k, d);
    }
  }

  lemma DivLeSelf(x: nat, d: nat)
    requires d >= 1
    ensures x / d <= x
  {
    DivLeIff(x, d, x);
    MulLe(x + 1, d);
  }

  lemma DivGeIff(y: int, d: int, q: int)
    requires d > 0
    ensures y / d >= q <==> y >= q * d
  {
    DivLeIff(y, d, q - 1);
  }

  /** The quotient is the unique q with q*d <= y < (q+1)*d. */
  lemma DivUnique(y: int, d: int, q: int)
    requires d > 0
    requires q * d <= y < (q + 1) * d
    ensures y / d == q
  {
    DivLeIff(y, d, q);
    DivGeIff(y, d, q);
  }

  lemma MulDivMono(a: nat, b: nat, r: nat, t: nat)
    requires a <= b && t > 0
    ensures a * r / t <= b * r / t
  {
    MulMonoLeft(a, b, r);
    DivMono(a * r, b * r, t);
  }

  lemma DivMono(x: int, y: int, d: int)
    requires x <= y && d > 0
    ensures x / d <= y / d
  {
    DivLeIff(x, d, y / d);
    assert y < (y / d + 1) * d by { DivLeIff(y, d, y / d); }
  }

  /** Floors of parts never exceed the floor of the whole. */
  lemma DivAddLe(x: nat, y: nat, d: nat)
    requires d > 0
    ensures x / d + y / d <= (x + y) / d
  {
    var a, b := x / d, y / d;
    assert a * d <= x by { DivGeIff(x, d, a); }
    assert b * d <= y by { DivGeIff(y, d, b); }
    assert (a + b) * d <= x + y;
    DivGeIff(x + y, d, a + b);
  }

  lemma DivDiv(x: nat, a: nat, b: nat)
    requires a > 0 && b > 0
    ensures x / a / b == x / (a * b)
  {
    var q := x / a / b;
    var u := x / a;
    assert q * b <= u < (q + 1) * b by { DivGeIff(u, b, q); DivLeIff(u, b, q); }
    assert u * a <= x < (u + 1) * a by { DivGeIff(x, a, u); DivLeIff(x, a, u); }
    assert q * (a * b) <= x by {
      MulMonoLeft(q * b, u, a);
      assert q * b * a == q * (a * b);
    }
    assert x < (q + 1) * (a * b) by {
      MulMonoLeft(u + 1, (q + 1) * b, a);
      assert (q + 1) * b * a == (q + 1) * (a * b);
    }
    DivUnique(x, a * b, q);
  }

  /** Halving k times is division by 2^k. */
  lemma HalveTwice(x: nat, k: nat)
    ensures x / 2 / Pow2(k) == x / Pow2(k + 1)
  {
    DivDiv(x, 2, Pow2(k));
  }

  /** Splitting a number at a multiple of a power: (h*m + l) / m == h when l < m. */
  lemma DivSplit(h: nat, l: nat, m: nat)
    requires 0 <= l < m
    ensures (h * m + l) / m == h
    ensures (h * m + l) % m == l
  {
    DivUnique(h * m + l, m, h);
  }

  lemma ModSplit(x: int, m: nat, k: nat)
    requires m > 0 && k > 0
    ensures x % (m * k) % m == x % m
  {
    var q := x / (m * k);
    var r := x % (m * k);
    assert x == q * (m * k) + r;
    assert x == (q * k) * m + r;
    ModAddMultiple(r, q * k, m);
  }

  /** Truncating to 32 bits keeps every residue modulo a smaller power of
      two. */
  lemma WrapMod(x: int, p: nat)
    requires p <= 32
    ensures Wrap(x) % Pow2(p) == x % Pow2(p)
  {
    Pow2Values();
    Pow2Add(p, 32 - p);
    ModSplit(x, Pow2(p), Pow2(32 - p));
  }

  /** A sum with a 32-bit-truncated part has the residue of the sum
      without truncation, modulo any power of two up to 2^32. */
  lemma WrapAddMod(x: int, y: int, p: nat)
    requires p <= 32
    ensures (Wrap(x) + y) % Pow2(p) == (x + y) % Pow2(p)
  {
    WrapMod(x, p);
    AddCongruent(Wrap(x), x, y, Pow2(p));
  }

  /** Adding the same amount to two numbers with one residue keeps their
      residues equal. */
  lemma AddCongruent(a: int, x: int, y: int, m: nat)
    requires m > 0 && a % m == x % m
    ensures (a + y) % m == (x + y) % m
  {
    var d := a / m - x / m;
    assert a == a / m * m + a % m;
    assert x == x / m * m + x % m;
    assert a + y == d * m + (x + y);
    ModAddMultiple(x + y, d, m);
  }

  /** Doubling keeps equal residues equal. */
  lemma DoubleCongruent(a: int, x: int, m: nat)
    requires m > 0 && a % m == x % m
    ensures (2 * a) % m == (2 * x) % m
  {
    AddCongruent(a, x, a, m);
    AddCongruent(a, x, x, m);
  }

  lemma ModAddMultiple(r: int, q: int, m: nat)
    requires m > 0
    ensures (q * m + r) % m == r % m
  {
    var s := r % m;
    var t := r / m;
    assert r == t * m + s;
    assert q * m + r == (q + t) * m + s;
    DivUnique(q * m + r, m, q + t);
  }
}
