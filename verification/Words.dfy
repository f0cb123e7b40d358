/** 64-bit words as bounded integers: wrapping addition and multiplication, shift, exclusive or.

    The bit operations are defined bit by bit, so that the two invertibility facts the generator
    rests on (a xor-shift and an odd multiplication are bijections) are proved and not assumed. */
module Words {

  /** The number of 64-bit words, 2^64. */
  const WORD: nat := 0x1_0000_0000_0000_0000

  type Word = x: nat | x < WORD

  function Pow2(k: nat): (p: nat)
    ensures p > 0
  {
    if k == 0 then 1 else 2 * Pow2(k - 1)
  }

  /** Logical right shift, one bit at a time. */
  function Shr(z: nat, k: nat): (r: nat)
    ensures r <= z
    decreases k, z
  {
    if k == 0 then z else Shr(z / 2, k - 1)
  }

  /** Bitwise exclusive or, lowest bit first. */
  function Xor(a: nat, b: nat): nat
    decreases a + b
  {
    if a == 0 && b == 0 then 0
    else 2 * Xor(a / 2, b / 2) + (if a % 2 == b % 2 then 0 else 1)
  }

  function WrapAdd(a: Word, b: Word): Word { (a + b) % WORD }

  function WrapMul(a: Word, b: Word): Word { (a * b) % WORD }

  // ---- algebra of exclusive or and shift

  lemma {:induction false} XorAssoc(a: nat, b: nat, c: nat)
    ensures Xor(Xor(a, b), c) == Xor(a, Xor(b, c))
    decreases a + b + c
  {
    if a + b + c > 0 {
      XorAssoc(a / 2, b / 2, c / 2);
      XorStep(a, b);
      XorStep(b, c);
      XorStep(Xor(a, b), c);
      XorStep(a, Xor(b, c));
    }
  }

  /** The defining equation of Xor without its base case. */
  lemma XorStep(a: nat, b: nat)
    ensures Xor(a, b) / 2 == Xor(a / 2, b / 2)
    ensures Xor(a, b) % 2 == if a % 2 == b % 2 then 0 else 1
    ensures Xor(a, b) == 2 * Xor(a / 2, b / 2) + (if a % 2 == b % 2 then 0 else 1)
  {
  }

  lemma {:induction false} XorSelf(a: nat)
    ensures Xor(a, a) == 0
  {
    if a > 0 { XorSelf(a / 2); }
  }

  lemma {:induction false} XorZero(a: nat)
    ensures Xor(a, 0) == a
    ensures Xor(0, a) == a
  {
    if a > 0 { XorZero(a / 2); }
  }

  lemma {:induction false} XorBound(a: nat, b: nat, k: nat)
    requires a < Pow2(k) && b < Pow2(k)
    ensures Xor(a, b) < Pow2(k)
    decreases k
  {
    if k > 0 { XorBound(a / 2, b / 2, k - 1); XorStep(a, b); }
  }

  lemma {:induction false} ShrXor(a: nat, b: nat, k: nat)
    ensures Shr(Xor(a, b), k) == Xor(Shr(a, k), Shr(b, k))
    decreases k
  {
    if k > 0 { XorStep(a, b); ShrXor(a / 2, b / 2, k - 1); }
  }

  lemma {:induction false} ShrShr(z: nat, j: nat, k: nat)
    ensures Shr(Shr(z, j), k) == Shr(z, j + k)
    decreases j
  {
    if j > 0 { ShrShr(z / 2, j - 1, k); }
  }

  lemma {:induction false} ShrOut(z: nat, k: nat)
    requires z < Pow2(k)
    ensures Shr(z, k) == 0
    decreases k
  {
    if k > 0 { ShrOut(z / 2, k - 1); }
  }

  lemma WordIsPow2()
    ensures WORD == Pow2(64)
  {
    assert Pow2(12) == 0x1000;
    assert Pow2(24) == 0x100_0000;
    assert Pow2(36) == 0x10_0000_0000;
    assert Pow2(48) == 0x1_0000_0000_0000;
    assert Pow2(60) == 0x1000_0000_0000_0000;
  }

  lemma ShrWord(z: Word, k: nat)
    requires k >= 64
    ensures Shr(z, k) == 0
  {
    WordIsPow2();
    ShrOut(z, 64);
    ShrShr(z, 64, k - 64);
    ShrOut(0, k - 64);
  }

  // ---- what shift and exclusive or are

  lemma HalveThenDivide(z: nat, p: nat)
    requires p > 0
    ensures (z / 2) / p == z / (2 * p)
  {
    var q, r := z / (2 * p), z % (2 * p);
    assert z == 2 * (q * p) + r;
    assert z / 2 == q * p + r / 2;
    var d := (z / 2) / p - q;
    assert d * p == r / 2 - (z / 2) % p;
    TimesAway(d, p);
  }

  lemma TimesAway(d: int, p: int)
    requires p > 0
    ensures (d >= 1 ==> d * p >= p) && (d <= -1 ==> d * p <= -p)
  {
  }

  /** A right shift divides by a power of two. */
  lemma {:induction false} ShrIsQuotient(z: nat, k: nat)
    ensures Shr(z, k) == z / Pow2(k)
    decreases k
  {
    if k > 0 {
      ShrIsQuotient(z / 2, k - 1);
      HalveThenDivide(z, Pow2(k - 1));
    }
  }

  /** Bit k of the exclusive or is set exactly if bit k of one operand is and of the other is not. */
  lemma {:induction false} XorBit(a: nat, b: nat, k: nat)
    ensures (Xor(a, b) / Pow2(k)) % 2 == 1 <==> (a / Pow2(k)) % 2 != (b / Pow2(k)) % 2
    decreases k
  {
    XorStep(a, b);
    if k > 0 {
      XorBit(a / 2, b / 2, k - 1);
      HalveThenDivide(a, Pow2(k - 1));
      HalveThenDivide(b, Pow2(k - 1));
      HalveThenDivide(Xor(a, b), Pow2(k - 1));
    }
  }

  // ---- the xor-shift step and its inverse

  function XorShift(z: Word, k: nat): Word {
    WordIsPow2();
    XorBound(z, Shr(z, k), 64);
    Xor(z, Shr(z, k))
  }

  /** Undoes `XorShift` for shifts of at least 22 bits, where three terms cover the word. */
  function UnXorShift(y: Word, k: nat): Word {
    WordIsPow2();
    XorBound(Shr(y, k), Shr(y, 2 * k), 64);
    XorBound(y, Xor(Shr(y, k), Shr(y, 2 * k)), 64);
    Xor(y, Xor(Shr(y, k), Shr(y, 2 * k)))
  }

  /** Decoding an encoded word: `z ^ a` shifted by k is `a ^ b`, and shifted by 2k it is `b`. */
  lemma ShiftThenUnshift(z: Word, k: nat)
    requires k >= 22
    ensures UnXorShift(XorShift(z, k), k) == z
  {
    var a, b := Shr(z, k), Shr(z, 2 * k);
    var y := XorShift(z, k);
    assert Shr(y, k) == Xor(a, b) by { ShrXor(z, a, k); ShrShr(z, k, k); }
    assert Shr(y, 2 * k) == b by {
      ShrXor(z, a, 2 * k); ShrShr(z, k, 2 * k); ShrWord(z, 3 * k); XorZero(b);
    }
    assert Xor(Xor(a, b), b) == a by { XorAssoc(a, b, b); XorSelf(b); XorZero(a); }
    XorAssoc(z, a, a); XorSelf(a); XorZero(z);
  }

  /** Encoding a decoded word: `z ^ (a ^ b)` shifted by k is `a ^ b` again. */
  lemma UnshiftThenShift(z: Word, k: nat)
    requires k >= 22
    ensures XorShift(UnXorShift(z, k), k) == z
  {
    var a, b := Shr(z, k), Shr(z, 2 * k);
    var c := Xor(a, b);
    assert Shr(b, k) == 0 by { ShrShr(z, 2 * k, k); ShrWord(z, 3 * k); }
    assert Shr(c, k) == b by { ShrXor(a, b, k); ShrShr(z, k, k); XorZero(b); }
    assert Shr(Xor(z, c), k) == Xor(a, b) by { ShrXor(z, c, k); }
    XorAssoc(z, c, c); XorSelf(c); XorZero(z);
  }

  // ---- multiplication by an odd constant and its inverse

  /** If `m * inv` is one modulo 2^64, then multiplying by `inv` undoes multiplying by `m`. */
  lemma MulRoundTrip(x: Word, m: Word, inv: Word)
    requires (m * inv) % WORD == 1
    ensures WrapMul(WrapMul(x, m), inv) == x
  {
    var q := (x * m) / WORD;
    var t := (m * inv) / WORD;
    calc {
      WrapMul(x, m) * inv;
      (x * m - q * WORD) * inv;
      { MulRegroup(x, m, inv, q); }
      x * (m * inv) - q * inv * WORD;
      { assert m * inv == t * WORD + 1; }
      x * (t * WORD + 1) - q * inv * WORD;
      { MulSplit(x, t, q, inv); }
      x + (x * t - q * inv) * WORD;
    }
    ModOfShift(x, x * t - q * inv);
  }

  lemma MulRegroup(x: int, m: int, inv: int, q: int)
    ensures (x * m - q * WORD) * inv == x * (m * inv) - q * inv * WORD
  {
  }

  lemma MulSplit(x: int, t: int, q: int, inv: int)
    ensures x * (t * WORD + 1) - q * inv * WORD == x + (x * t - q * inv) * WORD
  {
  }

  /** Stepping by `m` comes back to the same word only after a multiple of 2^64 steps. */
  lemma OddStepsCycle(d: int, m: Word, inv: Word)
    requires (m * inv) % WORD == 1
    ensures (d * m) % WORD == 0 <==> d % WORD == 0
  {
    if (d * m) % WORD == 0 {
      var q, t := (d * m) / WORD, (m * inv) / WORD;
      calc {
        q * inv * WORD;
        (d * m) * inv;
        d * (m * inv);
        d * (t * WORD + 1);
        d * t * WORD + d;
      }
      MultipleOfWord(d, q * inv - d * t);
    }
    if d % WORD == 0 {
      MultipleOfWord(d * m, (d / WORD) * m);
    }
  }

  /** Two numbers of steps from one word lead to the same word only if they agree modulo 2^64. */
  lemma OddStepsMeet(x: Word, i: nat, j: nat, m: Word, inv: Word, a: Word, b: Word)
    requires (m * inv) % WORD == 1
    requires a == (x + i * m) % WORD && b == (x + j * m) % WORD
    ensures a == b <==> (i - j) % WORD == 0
  {
    ModEqual(x + i * m, x + j * m);
    StepsApart(x, i, j, m);
    OddStepsCycle(i - j, m, inv);
  }

  lemma StepsApart(x: int, i: int, j: int, m: int)
    ensures x + i * m - (x + j * m) == (i - j) * m
  {
  }

  // ---- residues modulo 2^64

  lemma ModOfShift(x: Word, n: int)
    ensures (x + n * WORD) % WORD == x
  {
  }

  lemma MultipleOfWord(x: int, q: int)
    requires x == q * WORD
    ensures x % WORD == 0
  {
  }

  lemma ModAddLeft(a: int, b: int)
    ensures (a % WORD + b) % WORD == (a + b) % WORD
  {
  }

  lemma ModEqual(a: int, b: int)
    ensures a % WORD == b % WORD <==> (a - b) % WORD == 0
  {
  }
}
