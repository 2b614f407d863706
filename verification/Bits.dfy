/** C's `unsigned int`, and its bitwise operators on natural numbers. */
module Bits {

  /** `unsigned int` of the tools.  Masks and shifts by constants are written as the divisions and
      remainders they are; `|` of a base and a field that does not reach it is written as a sum. */
  type word = x: int | 0 <= x < 0x1_0000_0000

  /** An `int` or a count stored in an `unsigned int`. */
  function Word(i: int): word {
    i % 0x1_0000_0000
  }

  function Pow2(n: nat): (p: nat)
    ensures p > 0
  {
    if n == 0 then 1 else 2 * Pow2(n - 1)
  }

  lemma {:induction false} PowerOrder(a: nat, b: nat)
    ensures a < b <==> Pow2(a) < Pow2(b)
  {
    if a > 0 && b > 0 {
      PowerOrder(a - 1, b - 1);
    }
  }

  lemma Pow32()
    ensures Pow2(32) == 0x1_0000_0000 && Pow2(31) == 0x8000_0000 && Pow2(16) == 0x1_0000
  {
    assert Pow2(8) == 0x100;
    assert Pow2(16) == 0x1_0000;
    assert Pow2(24) == 0x100_0000;
    assert Pow2(31) == 0x8000_0000;
  }

  /** `n` ones starting at bit `s`. */
  function Run(s: nat, n: nat): nat {
    if s == 0 then Pow2(n) - 1 else 2 * Run(s - 1, n)
  }

  /** `x & y` */
  function BitAnd(x: nat, y: nat): nat {
    if x == 0 || y == 0 then 0 else 2 * BitAnd(x / 2, y / 2) + if x % 2 == 1 && y % 2 == 1 then 1 else 0
  }

  /** `x | y` */
  function BitOr(x: nat, y: nat): nat {
    if x == 0 then y else if y == 0 then x
    else 2 * BitOr(x / 2, y / 2) + if x % 2 == 1 || y % 2 == 1 then 1 else 0
  }

  /** `x ^ y` */
  function BitXor(x: nat, y: nat): nat {
    if x == 0 then y else if y == 0 then x
    else 2 * BitXor(x / 2, y / 2) + if x % 2 != y % 2 then 1 else 0
  }

  /** `x & ~y` */
  function BitClear(x: nat, y: nat): nat {
    if x == 0 || y == 0 then x else 2 * BitClear(x / 2, y / 2) + if x % 2 == 1 && y % 2 == 0 then 1 else 0
  }

  /** `x >> n` */
  function ShiftRight(x: nat, n: nat): nat {
    if n == 0 then x else ShiftRight(x / 2, n - 1)
  }

  /** `x << n` without an upper bound */
  function ShiftLeft(x: nat, n: nat): nat
    decreases n, x
  {
    if n == 0 then x else ShiftLeft(2 * x, n - 1)
  }

  lemma AndStep(x: nat, y: nat)
    ensures BitAnd(x, y) == 2 * BitAnd(x / 2, y / 2) + if x % 2 == 1 && y % 2 == 1 then 1 else 0
    ensures BitAnd(x, y) / 2 == BitAnd(x / 2, y / 2)
  {
  }

  lemma ClearStep(x: nat, y: nat)
    ensures BitClear(x, y) == 2 * BitClear(x / 2, y / 2) + if x % 2 == 1 && y % 2 == 0 then 1 else 0
    ensures BitClear(x, y) / 2 == BitClear(x / 2, y / 2)
  {
  }

  lemma OrStep(x: nat, y: nat)
    ensures BitOr(x, y) == 2 * BitOr(x / 2, y / 2) + if x % 2 == 1 || y % 2 == 1 then 1 else 0
    ensures BitOr(x, y) / 2 == BitOr(x / 2, y / 2)
  {
  }

  lemma XorStep(x: nat, y: nat)
    ensures BitXor(x, y) == 2 * BitXor(x / 2, y / 2) + if x % 2 != y % 2 then 1 else 0
    ensures BitXor(x, y) / 2 == BitXor(x / 2, y / 2)
  {
  }

  lemma {:induction false} ShiftLeftMul(x: nat, n: nat)
    ensures ShiftLeft(x, n) == x * Pow2(n)
    decreases n
  {
    if n > 0 {
      ShiftLeftMul(2 * x, n - 1);
    }
  }

  /** An or of values without a common bit is their sum: the higher one lies above bit n. */
  lemma {:induction false} OrDisjoint(low: nat, high: nat, n: nat)
    requires low < Pow2(n)
    ensures BitOr(low, ShiftLeft(high, n)) == low + ShiftLeft(high, n)
    decreases n
  {
    ShiftLeftMul(high, n);
    if n > 0 && low > 0 && ShiftLeft(high, n) > 0 {
      ShiftLeftMul(high, n - 1);
      assert ShiftLeft(high, n) == 2 * ShiftLeft(high, n - 1);
      OrDisjoint(low / 2, high, n - 1);
    }
  }

  lemma {:induction false} AndSelf(x: nat)
    ensures BitAnd(x, x) == x
  {
    if x > 0 {
      AndSelf(x / 2);
    }
  }

  /** `x & ~x == 0` in n bits. */
  lemma {:induction false} AndComplement(x: nat, n: nat)
    requires x < Pow2(n)
    ensures BitAnd(x, Pow2(n) - 1 - x) == 0
    decreases n
  {
    if n > 0 {
      AndComplement(x / 2, n - 1);
      assert (Pow2(n) - 1 - x) / 2 == Pow2(n - 1) - 1 - x / 2;
    }
  }

  /** Masking with n ones is the remainder modulo 2^n. */
  lemma {:induction false} AndOnes(x: nat, n: nat)
    ensures BitAnd(x, Pow2(n) - 1) == x % Pow2(n)
    decreases n
  {
    if n > 0 {
      AndOnes(x / 2, n - 1);
      HalfMod(x, n);
      assert (Pow2(n) - 1) / 2 == Pow2(n - 1) - 1;
    }
  }

  lemma HalfMod(x: nat, n: nat)
    requires n > 0
    ensures x % Pow2(n) == 2 * ((x / 2) % Pow2(n - 1)) + x % 2
  {
    var p := Pow2(n - 1);
    var q, r := (x / 2) / p, (x / 2) % p;
    assert x == 2 * (q * p + r) + x % 2;
    assert x == q * Pow2(n) + (2 * r + x % 2);
    ModUnique(x, Pow2(n), q, 2 * r + x % 2);
  }

  lemma ModUnique(x: nat, m: nat, q: nat, r: nat)
    requires m > 0 && x == q * m + r && r < m
    ensures x % m == r && x / m == q
  {
    var d := q - x / m;
    assert d * m == x % m - r;
    MulAtLeast(d, m);
  }

  lemma MulAtLeast(d: int, m: int)
    requires m >= 0
    ensures d >= 1 ==> d * m >= m
    ensures d <= -1 ==> d * m <= -m
  {
  }

  /** Bits at and above 2^n do not matter against a value below it. */
  lemma {:induction false} AndMod(x: nat, y: nat, n: nat)
    requires x < Pow2(n)
    ensures BitAnd(x, y % Pow2(n)) == BitAnd(x, y)
    decreases n
  {
    if n > 0 {
      HalfMod(y, n);
      AndMod(x / 2, y / 2, n - 1);
      assert (y % Pow2(n)) / 2 == (y / 2) % Pow2(n - 1) && (y % Pow2(n)) % 2 == y % 2;
      if y % Pow2(n) == 0 && x > 0 && y > 0 {
        assert BitAnd(x, y) == 2 * BitAnd(x / 2, y / 2);
      }
    }
  }

  lemma {:induction false} AndSym(x: nat, y: nat)
    ensures BitAnd(x, y) == BitAnd(y, x)
  {
    if x > 0 && y > 0 {
      AndSym(x / 2, y / 2);
    }
  }

  lemma {:induction false} ClearBound(x: nat, y: nat)
    ensures BitClear(x, y) <= x
    decreases x
  {
    if x > 0 && y > 0 {
      ClearBound(x / 2, y / 2);
    }
  }

  lemma {:induction false} OrBound(x: nat, y: nat, n: nat)
    requires x < Pow2(n) && y < Pow2(n)
    ensures BitOr(x, y) < Pow2(n)
    decreases n
  {
    if n > 0 {
      OrStep(x, y);
      OrBound(x / 2, y / 2, n - 1);
    }
  }

  /** Putting bits into a word cleared by a mask: those inside the mask can be taken out again, those
      outside are added to what was there. */
  lemma {:induction false} MaskedBack(was: nat, mask: nat, bits: nat)
    ensures BitAnd(BitOr(BitClear(was, mask), bits), mask) == BitAnd(bits, mask)
    ensures BitClear(BitOr(BitClear(was, mask), bits), mask) == BitOr(BitClear(was, mask), BitClear(bits, mask))
    decreases was + mask + bits
  {
    var kept := BitClear(was, mask);
    if was + mask + bits > 0 {
      AndStep(bits, mask);
      ClearStep(bits, mask);
      ClearStep(was, mask);
      OrStep(kept, bits);
      OrStep(kept, BitClear(bits, mask));
      AndStep(BitOr(kept, bits), mask);
      ClearStep(BitOr(kept, bits), mask);
      MaskedBack(was / 2, mask / 2, bits / 2);
    }
  }

  /** The bits under a mask that has none in common with the cleared one. */
  lemma {:induction false} MaskedApart(was: nat, mask: nat, bits: nat, other: nat)
    requires BitAnd(mask, other) == 0
    ensures BitAnd(BitOr(BitClear(was, mask), bits), other) == BitOr(BitAnd(was, other), BitAnd(bits, other))
    decreases was + mask + bits + other
  {
    var kept := BitClear(was, mask);
    if was + mask + bits + other > 0 {
      AndStep(mask, other);
      AndStep(was, other);
      AndStep(bits, other);
      ClearStep(was, mask);
      OrStep(kept, bits);
      OrStep(BitAnd(was, other), BitAnd(bits, other));
      AndStep(BitOr(kept, bits), other);
      MaskedApart(was / 2, mask / 2, bits / 2, other / 2);
    }
  }

  lemma {:induction false} RunBound(s: nat, n: nat)
    ensures Run(s, n) < Pow2(s + n)
  {
    if s > 0 {
      RunBound(s - 1, n);
    }
  }

  /** A value shifted up and masked by n ones comes down as its low n bits. */
  lemma {:induction false} ShiftedBack(v: nat, s: nat, n: nat)
    ensures ShiftRight(BitAnd(ShiftLeft(v, s), Run(s, n)), s) == v % Pow2(n)
    decreases s
  {
    if s == 0 {
      AndOnes(v, n);
    } else {
      ShiftLeftMul(v, s);
      ShiftLeftMul(v, s - 1);
      assert ShiftLeft(v, s) == 2 * ShiftLeft(v, s - 1);
      AndStep(ShiftLeft(v, s), Run(s, n));
      ShiftedBack(v, s - 1, n);
    }
  }

  lemma HalfDiv(x: nat, n: nat)
    requires n > 0
    ensures x / Pow2(n) == x / 2 / Pow2(n - 1)
  {
    var p := Pow2(n - 1);
    var q, r := (x / 2) / p, (x / 2) % p;
    assert x == q * Pow2(n) + (2 * r + x % 2);
    ModUnique(x, Pow2(n), q, 2 * r + x % 2);
  }

  /** Masking with a single one asks for that bit. */
  lemma {:induction false} AndPower(x: nat, n: nat)
    ensures BitAnd(x, Pow2(n)) != 0 <==> x / Pow2(n) % 2 == 1
    decreases n
  {
    AndStep(x, Pow2(n));
    if n > 0 {
      HalfDiv(x, n);
      AndPower(x / 2, n - 1);
    }
  }
}
