/** The MD5 message digest as RFC 1321 describes it, section by section. */
module Md5Spec {
  import opened Bits
  import opened Bytes

  /** The auxiliary functions of section 3.4, bit by bit on words of 32 bits. */
  function F(x: word, y: word, z: word): word {
    var (a, b, c) := (x as bv32, y as bv32, z as bv32);
    ((a & b) | (!a & c)) as word
  }

  function G(x: word, y: word, z: word): word {
    var (a, b, c) := (x as bv32, y as bv32, z as bv32);
    ((a & c) | (b & !c)) as word
  }

  function H(x: word, y: word, z: word): word {
    ((x as bv32) ^ (y as bv32) ^ (z as bv32)) as word
  }

  function I(x: word, y: word, z: word): word {
    ((y as bv32) ^ ((x as bv32) | !(z as bv32))) as word
  }

  function Mix(i: nat, x: word, y: word, z: word): word {
    if i < 16 then F(x, y, z) else if i < 32 then G(x, y, z) else if i < 48 then H(x, y, z) else I(x, y, z)
  }

  /** The input word of step i. */
  function Index(i: nat): (k: nat)
    ensures k < 16
  {
    if i < 16 then i else if i < 32 then (5 * i + 1) % 16 else if i < 48 then (3 * i + 5) % 16 else 7 * i % 16
  }

  /** The left rotation of step i. */
  function Shift(i: nat): (s: nat)
    ensures 0 < s < 32
  {
    if i < 16 then (if i % 4 == 0 then 7 else if i % 4 == 1 then 12 else if i % 4 == 2 then 17 else 22)
    else if i < 32 then (if i % 4 == 0 then 5 else if i % 4 == 1 then 9 else if i % 4 == 2 then 14 else 20)
    else if i < 48 then (if i % 4 == 0 then 4 else if i % 4 == 1 then 11 else if i % 4 == 2 then 16 else 23)
    else (if i % 4 == 0 then 6 else if i % 4 == 1 then 10 else if i % 4 == 2 then 15 else 21)
  }

  /** The table of section 3.4: the first 32 bits of the sine's fractional part, round by round. */
  function Sine(i: nat): word {
    if i < 16 then Sine1(i) else if i < 32 then Sine2(i) else if i < 48 then Sine3(i) else Sine4(i)
  }

  function Sine1(i: nat): word {
    match i
    case 0 => 0xD76AA478  case 1 => 0xE8C7B756  case 2 => 0x242070DB  case 3 => 0xC1BDCEEE
    case 4 => 0xF57C0FAF  case 5 => 0x4787C62A  case 6 => 0xA8304613  case 7 => 0xFD469501
    case 8 => 0x698098D8  case 9 => 0x8B44F7AF  case 10 => 0xFFFF5BB1  case 11 => 0x895CD7BE
    case 12 => 0x6B901122  case 13 => 0xFD987193  case 14 => 0xA679438E  case 15 => 0x49B40821
    case _ => 0
  }

  function Sine2(i: nat): word {
    match i
    case 16 => 0xF61E2562  case 17 => 0xC040B340  case 18 => 0x265E5A51  case 19 => 0xE9B6C7AA
    case 20 => 0xD62F105D  case 21 => 0x02441453  case 22 => 0xD8A1E681  case 23 => 0xE7D3FBC8
    case 24 => 0x21E1CDE6  case 25 => 0xC33707D6  case 26 => 0xF4D50D87  case 27 => 0x455A14ED
    case 28 => 0xA9E3E905  case 29 => 0xFCEFA3F8  case 30 => 0x676F02D9  case 31 => 0x8D2A4C8A
    case _ => 0
  }

  function Sine3(i: nat): word {
    match i
    case 32 => 0xFFFA3942  case 33 => 0x8771F681  case 34 => 0x6D9D6122  case 35 => 0xFDE5380C
    case 36 => 0xA4BEEA44  case 37 => 0x4BDECFA9  case 38 => 0xF6BB4B60  case 39 => 0xBEBFBC70
    case 40 => 0x289B7EC6  case 41 => 0xEAA127FA  case 42 => 0xD4EF3085  case 43 => 0x04881D05
    case 44 => 0xD9D4D039  case 45 => 0xE6DB99E5  case 46 => 0x1FA27CF8  case 47 => 0xC4AC5665
    case _ => 0
  }

  function Sine4(i: nat): word {
    match i
    case 48 => 0xF4292244  case 49 => 0x432AFF97  case 50 => 0xAB9423A7  case 51 => 0xFC93A039
    case 52 => 0x655B59C3  case 53 => 0x8F0CCC92  case 54 => 0xFFEFF47D  case 55 => 0x85845DD1
    case 56 => 0x6FA87E4F  case 57 => 0xFE2CE6E0  case 58 => 0xA3014314  case 59 => 0x4E0811A1
    case 60 => 0xF7537E82  case 61 => 0xBD3AF235  case 62 => 0x2AD7D2BB  case 63 => 0xEB86D391
    case _ => 0
  }

  function Rotated(b: bv32, s: nat): bv32
    requires 0 < s < 32
  {
    (b << s) | (b >> (32 - s))
  }

  function RotateLeft(x: word, s: nat): word
    requires 0 < s < 32
  {
    Rotated(x as bv32, s) as word
  }

  /** The new value of the oldest register in step i of a block. */
  function Next(block: seq<word>, i: nat, r: (word, word, word, word)): word
    requires |block| == 16
  {
    Word(r.1 + RotateLeft(Word(r.0 + Mix(i, r.1, r.2, r.3) + block[Index(i)] + Sine(i)), Shift(i)))
  }

  /** The registers after n steps, the oldest first; every fourth step they are A, B, C, D again. */
  function Registers(state: seq<word>, block: seq<word>, n: nat): (word, word, word, word)
    requires |state| == 4 && |block| == 16
    decreases n, 1, block
  {
    if n == 0 then (state[0], state[1], state[2], state[3])
    else
      var r := Registers(state, block, n - 1);
      (r.3, Made(state, block, n - 1), r.1, r.2)
  }

  /** What step i makes. */
  function Made(state: seq<word>, block: seq<word>, i: nat): word
    requires |state| == 4 && |block| == 16
    decreases i, 2, block
  {
    Next(block, i, Registers(state, block, i))
  }

  /** Section 3.4: the state after one more block. */
  function Compress(state: seq<word>, block: seq<word>): (r: seq<word>)
    requires |state| == 4 && |block| == 16
    ensures |r| == 4
  {
    Added(state, Registers(state, block, 64))
  }

  function Added(state: seq<word>, r: (word, word, word, word)): (sum: seq<word>)
    requires |state| == 4
    ensures |sum| == 4
  {
    [Word(state[0] + r.0), Word(state[1] + r.1), Word(state[2] + r.2), Word(state[3] + r.3)]
  }

  /** Section 2: words are stored low-order byte first. */
  function BlockWords(bytes: seq<byte>, at: nat): (block: seq<word>)
    requires at + 64 <= |bytes|
    ensures |block| == 16
  {
    seq(16, j requires 0 <= j < 16 => FromLe32(bytes[at + 4 * j..at + 4 * j + 4]))
  }

  const INIT: seq<word> := [0x67452301, 0xEFCDAB89, 0x98BADCFE, 0x10325476]

  /** The state after the first n blocks. */
  function Absorb(bytes: seq<byte>, n: nat): (state: seq<word>)
    requires 64 * n <= |bytes|
    ensures |state| == 4
  {
    if n == 0 then INIT else Compress(Absorb(bytes, n - 1), BlockWords(bytes, 64 * (n - 1)))
  }

  function Zeros(n: nat): (z: seq<byte>)
    ensures |z| == n
  {
    seq(n, _ => 0)
  }

  /** Section 3.2: the number of bits modulo 2^64, low-order word first. */
  function LengthBytes(n: nat): (b: seq<byte>)
    ensures |b| == 8
  {
    Le32(8 * n % 0x1_0000_0000) + Le32(8 * n / 0x1_0000_0000 % 0x1_0000_0000)
  }

  lemma PadTotal(n: nat)
    ensures (n + 1 + (55 - n) % 64 + 8) % 64 == 0
  {
    var (q, r) := (n / 64, n % 64);
    assert (55 - n) % 64 == if r < 56 then 55 - r else 119 - r;
  }

  /** Section 3.1: a one bit, zeros until eight bytes are missing to a whole block, the length. */
  function Padded(message: seq<byte>): (p: seq<byte>)
    ensures |p| % 64 == 0
  {
    PadTotal(|message|);
    message + [0x80] + Zeros((55 - |message|) % 64) + LengthBytes(|message|)
  }

  function Output(state: seq<word>): (digest: seq<byte>)
    requires |state| == 4
    ensures |digest| == 16
  {
    Le32(state[0]) + Le32(state[1]) + Le32(state[2]) + Le32(state[3])
  }

  /** The message digest. */
  function Digest(message: seq<byte>): seq<byte> {
    var p := Padded(message);
    Output(Absorb(p, |p| / 64))
  }

  // ---------------------------------------------------------------- facts

  lemma LengthIs(lo: word, hi: word, n: nat)
    requires hi * 0x1_0000_0000 + lo == 8 * n % 0x1_0000_0000_0000_0000
    ensures LengthBytes(n) == Le32(lo) + Le32(hi)
  {
    var q := 8 * n / 0x1_0000_0000_0000_0000;
    assert 8 * n == (q * 0x1_0000_0000 + hi) * 0x1_0000_0000 + lo;
    ModUnique(8 * n, 0x1_0000_0000, q * 0x1_0000_0000 + hi, lo);
    ModUnique(q * 0x1_0000_0000 + hi, 0x1_0000_0000, q, hi);
  }

  lemma SameWords(a: seq<byte>, i: nat, b: seq<byte>, j: nat)
    requires i + 64 <= |a| && j + 64 <= |b| && a[i..i + 64] == b[j..j + 64]
    ensures BlockWords(a, i) == BlockWords(b, j)
  {
    forall k | 0 <= k < 16 ensures BlockWords(a, i)[k] == BlockWords(b, j)[k] {
      SliceOf(a, i, 64, 4 * k, 4 * k + 4);
      SliceOf(b, j, 64, 4 * k, 4 * k + 4);
    }
  }

  /** The first blocks of a message do not depend on what follows. */
  lemma {:induction false} AbsorbPrefix(a: seq<byte>, b: seq<byte>, n: nat)
    requires 64 * n <= |a|
    ensures Absorb(a + b, n) == Absorb(a, n)
  {
    if n > 0 {
      AbsorbPrefix(a, b, n - 1);
      var at := 64 * (n - 1);
      assert (a + b)[at..at + 64] == a[at..at + 64];
      SameWords(a + b, at, a, at);
    }
  }
}
