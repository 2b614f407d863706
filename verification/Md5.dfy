/** The streaming MD5 of the firmware cutter. */
module Md5 {
  import opened Bits
  import opened Bytes
  import opened Md5Spec

  // ---------------------------------------------------------------- the core

  /** `F1` saves one operation over the standard's F. */
  function F1(x: word, y: word, z: word): word {
    var (a, b, c) := (x as bv32, y as bv32, z as bv32);
    (c ^ (a & (b ^ c))) as word
  }

  function F2(x: word, y: word, z: word): word {
    F1(z, x, y)
  }

  function F3(x: word, y: word, z: word): word {
    ((x as bv32) ^ (y as bv32) ^ (z as bv32)) as word
  }

  function F4(x: word, y: word, z: word): word {
    ((y as bv32) ^ ((x as bv32) | !(z as bv32))) as word
  }

  /** Both ways of choosing b where a has ones and c where it has zeros. */
  lemma ChooseBits(a: bv32, b: bv32, c: bv32)
    ensures c ^ (a & (b ^ c)) == (a & b) | (!a & c) == (b & a) | (c & !a)
  {
  }

  function RoundOf(i: nat): nat {
    if i < 16 then 1 else if i < 32 then 2 else if i < 48 then 3 else 4
  }

  /** The function a round of the code applies. */
  function Core(round: nat, x: word, y: word, z: word): word {
    if round == 1 then F1(x, y, z) else if round == 2 then F2(x, y, z)
    else if round == 3 then F3(x, y, z) else F4(x, y, z)
  }

  /** It is the standard's function of that round. */
  lemma CoreIsMix(i: nat, x: word, y: word, z: word)
    requires i < 64
    ensures Core(RoundOf(i), x, y, z) == Mix(i, x, y, z)
  {
    ChooseIsF(x, y, z);
    ChooseIsG(x, y, z);
  }

  lemma ChooseIsF(x: word, y: word, z: word)
    ensures F1(x, y, z) == F(x, y, z)
  {
    ChooseBits(x as bv32, y as bv32, z as bv32);
  }

  lemma ChooseIsG(x: word, y: word, z: word)
    ensures F2(x, y, z) == G(x, y, z)
  {
    ChooseBits(z as bv32, x as bv32, y as bv32);
  }

  lemma WordSum(w: nat, f: nat, input: nat, t: nat)
    ensures Word(w + Word(f + Word(input + t))) == Word(w + f + input + t)
  {
  }

  /** The sum that a step rotates. */
  lemma StepSum(block: seq<word>, i: nat, round: nat, w: word, x: word, y: word, z: word, input: word, t: word)
    requires |block| == 16 && i < 64 && round == RoundOf(i) && input == block[Index(i)] && t == Sine(i)
    ensures var sum := Word(w + Word(Core(round, x, y, z) + Word(input + t)));
            Next(block, i, (w, x, y, z)) == Word(x + RotateLeft(sum, Shift(i)))
  {
    CoreIsMix(i, x, y, z);
    WordSum(w, Core(round, x, y, z), input, t);
  }

  /** MD5STEP: the oldest register gets its next value. */
  method Step(round: nat, w: word, x: word, y: word, z: word, input: word, t: word, s: nat,
              ghost state: seq<word>, ghost block: seq<word>, ghost i: nat)
    returns (r: word)
    requires |state| == 4 && |block| == 16 && i < 64 && Registers(state, block, i) == (w, x, y, z)
    requires round == RoundOf(i) && input == block[Index(i)] && t == Sine(i) && s == Shift(i)
    ensures Registers(state, block, i + 1) == (z, r, x, y)
  {
    r := Word(w + Word(Core(round, x, y, z) + Word(input + t)));
    StepSum(block, i, round, w, x, y, z, input, t);
    r := RotateLeft(r, s);
    r := Word(r + x);
    assert Made(state, block, i) == Next(block, i, (w, x, y, z));
  }


  method Round1(block: array<word>, ghost state: seq<word>, a0: word, b0: word, c0: word, d0: word)
    returns (a: word, b: word, c: word, d: word)
    requires block.Length == 16 && |state| == 4 && Registers(state, block[..], 0) == (a0, b0, c0, d0)
    ensures Registers(state, block[..], 16) == (a, b, c, d)
  {
    a, b, c, d := a0, b0, c0, d0;
    ghost var xs := block[..];
    a := Step(1, a, b, c, d, block[0], 0xD76AA478, 7, state, xs, 0);
    d := Step(1, d, a, b, c, block[1], 0xE8C7B756, 12, state, xs, 1);
    c := Step(1, c, d, a, b, block[2], 0x242070DB, 17, state, xs, 2);
    b := Step(1, b, c, d, a, block[3], 0xC1BDCEEE, 22, state, xs, 3);
    a := Step(1, a, b, c, d, block[4], 0xF57C0FAF, 7, state, xs, 4);
    d := Step(1, d, a, b, c, block[5], 0x4787C62A, 12, state, xs, 5);
    c := Step(1, c, d, a, b, block[6], 0xA8304613, 17, state, xs, 6);
    b := Step(1, b, c, d, a, block[7], 0xFD469501, 22, state, xs, 7);
    a := Step(1, a, b, c, d, block[8], 0x698098D8, 7, state, xs, 8);
    d := Step(1, d, a, b, c, block[9], 0x8B44F7AF, 12, state, xs, 9);
    c := Step(1, c, d, a, b, block[10], 0xFFFF5BB1, 17, state, xs, 10);
    b := Step(1, b, c, d, a, block[11], 0x895CD7BE, 22, state, xs, 11);
    a := Step(1, a, b, c, d, block[12], 0x6B901122, 7, state, xs, 12);
    d := Step(1, d, a, b, c, block[13], 0xFD987193, 12, state, xs, 13);
    c := Step(1, c, d, a, b, block[14], 0xA679438E, 17, state, xs, 14);
    b := Step(1, b, c, d, a, block[15], 0x49B40821, 22, state, xs, 15);
  }

  lemma Tables2()
    ensures Index(16) == 1 && Index(17) == 6 && Index(18) == 11 && Index(19) == 0
    ensures Index(20) == 5 && Index(21) == 10 && Index(22) == 15 && Index(23) == 4
    ensures Index(24) == 9 && Index(25) == 14 && Index(26) == 3 && Index(27) == 8
    ensures Index(28) == 13 && Index(29) == 2 && Index(30) == 7 && Index(31) == 12
    ensures Sine(16) == 0xF61E2562 && Sine(17) == 0xC040B340 && Sine(18) == 0x265E5A51 && Sine(19) == 0xE9B6C7AA
    ensures Sine(20) == 0xD62F105D && Sine(21) == 0x02441453 && Sine(22) == 0xD8A1E681 && Sine(23) == 0xE7D3FBC8
    ensures Sine(24) == 0x21E1CDE6 && Sine(25) == 0xC33707D6 && Sine(26) == 0xF4D50D87 && Sine(27) == 0x455A14ED
    ensures Sine(28) == 0xA9E3E905 && Sine(29) == 0xFCEFA3F8 && Sine(30) == 0x676F02D9 && Sine(31) == 0x8D2A4C8A
    ensures Shift(16) == 5 && Shift(17) == 9 && Shift(18) == 14 && Shift(19) == 20
    ensures Shift(20) == 5 && Shift(21) == 9 && Shift(22) == 14 && Shift(23) == 20
    ensures Shift(24) == 5 && Shift(25) == 9 && Shift(26) == 14 && Shift(27) == 20
    ensures Shift(28) == 5 && Shift(29) == 9 && Shift(30) == 14 && Shift(31) == 20
  {
  }

  method Round2(block: array<word>, ghost state: seq<word>, a0: word, b0: word, c0: word, d0: word)
    returns (a: word, b: word, c: word, d: word)
    requires block.Length == 16 && |state| == 4 && Registers(state, block[..], 16) == (a0, b0, c0, d0)
    ensures Registers(state, block[..], 32) == (a, b, c, d)
  {
    a, b, c, d := a0, b0, c0, d0;
    ghost var xs := block[..];
    Tables2();
    a := Step(2, a, b, c, d, block[1], 0xF61E2562, 5, state, xs, 16);
    d := Step(2, d, a, b, c, block[6], 0xC040B340, 9, state, xs, 17);
    c := Step(2, c, d, a, b, block[11], 0x265E5A51, 14, state, xs, 18);
    b := Step(2, b, c, d, a, block[0], 0xE9B6C7AA, 20, state, xs, 19);
    a := Step(2, a, b, c, d, block[5], 0xD62F105D, 5, state, xs, 20);
    d := Step(2, d, a, b, c, block[10], 0x02441453, 9, state, xs, 21);
    c := Step(2, c, d, a, b, block[15], 0xD8A1E681, 14, state, xs, 22);
    b := Step(2, b, c, d, a, block[4], 0xE7D3FBC8, 20, state, xs, 23);
    a := Step(2, a, b, c, d, block[9], 0x21E1CDE6, 5, state, xs, 24);
    d := Step(2, d, a, b, c, block[14], 0xC33707D6, 9, state, xs, 25);
    c := Step(2, c, d, a, b, block[3], 0xF4D50D87, 14, state, xs, 26);
    b := Step(2, b, c, d, a, block[8], 0x455A14ED, 20, state, xs, 27);
    a := Step(2, a, b, c, d, block[13], 0xA9E3E905, 5, state, xs, 28);
    d := Step(2, d, a, b, c, block[2], 0xFCEFA3F8, 9, state, xs, 29);
    c := Step(2, c, d, a, b, block[7], 0x676F02D9, 14, state, xs, 30);
    b := Step(2, b, c, d, a, block[12], 0x8D2A4C8A, 20, state, xs, 31);
  }

  lemma Tables3()
    ensures Index(32) == 5 && Index(33) == 8 && Index(34) == 11 && Index(35) == 14
    ensures Index(36) == 1 && Index(37) == 4 && Index(38) == 7 && Index(39) == 10
    ensures Index(40) == 13 && Index(41) == 0 && Index(42) == 3 && Index(43) == 6
    ensures Index(44) == 9 && Index(45) == 12 && Index(46) == 15 && Index(47) == 2
    ensures Sine(32) == 0xFFFA3942 && Sine(33) == 0x8771F681 && Sine(34) == 0x6D9D6122 && Sine(35) == 0xFDE5380C
    ensures Sine(36) == 0xA4BEEA44 && Sine(37) == 0x4BDECFA9 && Sine(38) == 0xF6BB4B60 && Sine(39) == 0xBEBFBC70
    ensures Sine(40) == 0x289B7EC6 && Sine(41) == 0xEAA127FA && Sine(42) == 0xD4EF3085 && Sine(43) == 0x04881D05
    ensures Sine(44) == 0xD9D4D039 && Sine(45) == 0xE6DB99E5 && Sine(46) == 0x1FA27CF8 && Sine(47) == 0xC4AC5665
    ensures Shift(32) == 4 && Shift(33) == 11 && Shift(34) == 16 && Shift(35) == 23
    ensures Shift(36) == 4 && Shift(37) == 11 && Shift(38) == 16 && Shift(39) == 23
    ensures Shift(40) == 4 && Shift(41) == 11 && Shift(42) == 16 && Shift(43) == 23
    ensures Shift(44) == 4 && Shift(45) == 11 && Shift(46) == 16 && Shift(47) == 23
  {
  }

  method Round3(block: array<word>, ghost state: seq<word>, a0: word, b0: word, c0: word, d0: word)
    returns (a: word, b: word, c: word, d: word)
    requires block.Length == 16 && |state| == 4 && Registers(state, block[..], 32) == (a0, b0, c0, d0)
    ensures Registers(state, block[..], 48) == (a, b, c, d)
  {
    a, b, c, d := a0, b0, c0, d0;
    ghost var xs := block[..];
    Tables3();
    a := Step(3, a, b, c, d, block[5], 0xFFFA3942, 4, state, xs, 32);
    d := Step(3, d, a, b, c, block[8], 0x8771F681, 11, state, xs, 33);
    c := Step(3, c, d, a, b, block[11], 0x6D9D6122, 16, state, xs, 34);
    b := Step(3, b, c, d, a, block[14], 0xFDE5380C, 23, state, xs, 35);
    a := Step(3, a, b, c, d, block[1], 0xA4BEEA44, 4, state, xs, 36);
    d := Step(3, d, a, b, c, block[4], 0x4BDECFA9, 11, state, xs, 37);
    c := Step(3, c, d, a, b, block[7], 0xF6BB4B60, 16, state, xs, 38);
    b := Step(3, b, c, d, a, block[10], 0xBEBFBC70, 23, state, xs, 39);
    a := Step(3, a, b, c, d, block[13], 0x289B7EC6, 4, state, xs, 40);
    d := Step(3, d, a, b, c, block[0], 0xEAA127FA, 11, state, xs, 41);
    c := Step(3, c, d, a, b, block[3], 0xD4EF3085, 16, state, xs, 42);
    b := Step(3, b, c, d, a, block[6], 0x04881D05, 23, state, xs, 43);
    a := Step(3, a, b, c, d, block[9], 0xD9D4D039, 4, state, xs, 44);
    d := Step(3, d, a, b, c, block[12], 0xE6DB99E5, 11, state, xs, 45);
    c := Step(3, c, d, a, b, block[15], 0x1FA27CF8, 16, state, xs, 46);
    b := Step(3, b, c, d, a, block[2], 0xC4AC5665, 23, state, xs, 47);
  }

  lemma Tables4()
    ensures Index(48) == 0 && Index(49) == 7 && Index(50) == 14 && Index(51) == 5
    ensures Index(52) == 12 && Index(53) == 3 && Index(54) == 10 && Index(55) == 1
    ensures Index(56) == 8 && Index(57) == 15 && Index(58) == 6 && Index(59) == 13
    ensures Index(60) == 4 && Index(61) == 11 && Index(62) == 2 && Index(63) == 9
    ensures Sine(48) == 0xF4292244 && Sine(49) == 0x432AFF97 && Sine(50) == 0xAB9423A7 && Sine(51) == 0xFC93A039
    ensures Sine(52) == 0x655B59C3 && Sine(53) == 0x8F0CCC92 && Sine(54) == 0xFFEFF47D && Sine(55) == 0x85845DD1
    ensures Sine(56) == 0x6FA87E4F && Sine(57) == 0xFE2CE6E0 && Sine(58) == 0xA3014314 && Sine(59) == 0x4E0811A1
    ensures Sine(60) == 0xF7537E82 && Sine(61) == 0xBD3AF235 && Sine(62) == 0x2AD7D2BB && Sine(63) == 0xEB86D391
    ensures Shift(48) == 6 && Shift(49) == 10 && Shift(50) == 15 && Shift(51) == 21
    ensures Shift(52) == 6 && Shift(53) == 10 && Shift(54) == 15 && Shift(55) == 21
    ensures Shift(56) == 6 && Shift(57) == 10 && Shift(58) == 15 && Shift(59) == 21
    ensures Shift(60) == 6 && Shift(61) == 10 && Shift(62) == 15 && Shift(63) == 21
  {
  }

  method Round4(block: array<word>, ghost state: seq<word>, a0: word, b0: word, c0: word, d0: word)
    returns (a: word, b: word, c: word, d: word)
    requires block.Length == 16 && |state| == 4 && Registers(state, block[..], 48) == (a0, b0, c0, d0)
    ensures Registers(state, block[..], 64) == (a, b, c, d)
  {
    a, b, c, d := a0, b0, c0, d0;
    ghost var xs := block[..];
    Tables4();
    a := Step(4, a, b, c, d, block[0], 0xF4292244, 6, state, xs, 48);
    d := Step(4, d, a, b, c, block[7], 0x432AFF97, 10, state, xs, 49);
    c := Step(4, c, d, a, b, block[14], 0xAB9423A7, 15, state, xs, 50);
    b := Step(4, b, c, d, a, block[5], 0xFC93A039, 21, state, xs, 51);
    a := Step(4, a, b, c, d, block[12], 0x655B59C3, 6, state, xs, 52);
    d := Step(4, d, a, b, c, block[3], 0x8F0CCC92, 10, state, xs, 53);
    c := Step(4, c, d, a, b, block[10], 0xFFEFF47D, 15, state, xs, 54);
    b := Step(4, b, c, d, a, block[1], 0x85845DD1, 21, state, xs, 55);
    a := Step(4, a, b, c, d, block[8], 0x6FA87E4F, 6, state, xs, 56);
    d := Step(4, d, a, b, c, block[15], 0xFE2CE6E0, 10, state, xs, 57);
    c := Step(4, c, d, a, b, block[6], 0xA3014314, 15, state, xs, 58);
    b := Step(4, b, c, d, a, block[13], 0x4E0811A1, 21, state, xs, 59);
    a := Step(4, a, b, c, d, block[4], 0xF7537E82, 6, state, xs, 60);
    d := Step(4, d, a, b, c, block[11], 0xBD3AF235, 10, state, xs, 61);
    c := Step(4, c, d, a, b, block[2], 0x2AD7D2BB, 15, state, xs, 62);
    b := Step(4, b, c, d, a, block[9], 0xEB86D391, 21, state, xs, 63);
  }

  method Rounds(block: array<word>, state: seq<word>) returns (a: word, b: word, c: word, d: word)
    requires block.Length == 16 && |state| == 4
    ensures Registers(state, block[..], 64) == (a, b, c, d)
  {
    a, b, c, d := Round1(block, state, state[0], state[1], state[2], state[3]);
    a, b, c, d := Round2(block, state, a, b, c, d);
    a, b, c, d := Round3(block, state, a, b, c, d);
    a, b, c, d := Round4(block, state, a, b, c, d);
  }

  // ---------------------------------------------------------------- the stream

  /** The two words hold the number of bits in n bytes, modulo 2^64. */
  ghost predicate BitCount(lo: word, hi: word, n: nat) {
    hi * 0x1_0000_0000 + lo == 8 * n % 0x1_0000_0000_0000_0000
  }

  /** The carry from the low word to the high one. */
  lemma CountBits(lo: word, hi: word, n: nat, len: nat)
    requires BitCount(lo, hi, n) && len < 0x1_0000_0000
    ensures var sum := Word(lo + Word(8 * len));
            BitCount(sum, Word((if sum < lo then Word(hi + 1) else hi) + len / 0x2000_0000), n + len)
  {
    var (p, q) := (Word(8 * len), len / 0x2000_0000);
    LengthHalves(len);
    var sum := Word(lo + p);
    var carry := if sum < lo then 1 else 0;
    LowSum(lo, p);
    WrapHigh(8 * n / 0x1_0000_0000_0000_0000, hi + carry + q, sum);
    WordTwice(hi + carry, q);
  }

  lemma LengthHalves(len: nat)
    ensures 8 * len == len / 0x2000_0000 * 0x1_0000_0000 + Word(8 * len)
  {
  }

  lemma LowSum(lo: word, p: word)
    ensures var sum := Word(lo + p); lo + p == sum + if sum < lo then 0x1_0000_0000 else 0
  {
  }

  lemma WordTwice(x: nat, q: nat)
    ensures Word(Word(x) + q) == Word(x + q)
  {
  }

  lemma WrapHigh(k: nat, high: nat, low: word)
    ensures (k * 0x1_0000_0000_0000_0000 + high * 0x1_0000_0000 + low) % 0x1_0000_0000_0000_0000
         == Word(high) * 0x1_0000_0000 + low
  {
    var (q, r) := (high / 0x1_0000_0000, Word(high));
    var rest := r * 0x1_0000_0000 + low;
    assert k * 0x1_0000_0000_0000_0000 + high * 0x1_0000_0000 + low == (k + q) * 0x1_0000_0000_0000_0000 + rest;
    ModUnique((k + q) * 0x1_0000_0000_0000_0000 + rest, 0x1_0000_0000_0000_0000, k + q, rest);
  }

  /** The bytes already in the buffer, from the low word of the count. */
  lemma Buffered(lo: word, hi: word, n: nat)
    requires BitCount(lo, hi, n)
    ensures lo / 8 % 64 == n % 64
  {
    var k := 8 * n / 0x1_0000_0000_0000_0000;
    assert 8 * n == (k * 0x1_0000_0000 + hi) * 0x1_0000_0000 + lo;
    assert n == (k * 0x1_0000_0000 + hi) * 0x2000_0000 + lo / 8;
  }

  lemma WholeBlocks(size: nat, n: nat)
    requires 64 * n <= size < 64 * n + 64
    ensures size / 64 == n && size % 64 == size - 64 * n
  {
  }

  /** Too few bytes for a block join those that are kept. */
  lemma KeptBytes(was: seq<byte>, data: seq<byte>, block: seq<byte>, t: nat)
    requires |block| == 64 && t <= |was| && t + |data| < 64
    requires block[..t] == was[|was| - t..] && block[t..t + |data|] == data
    ensures block[..t + |data|] == (was + data)[|was| - t..]
  {
  }

  /** The kept bytes and the first of the new ones make a block. */
  lemma FilledBlock(was: seq<byte>, data: seq<byte>, block: seq<byte>, t: nat)
    requires |block| == 64 && t <= |was| && 0 < t < 64 && 64 - t <= |data|
    requires block[..t] == was[|was| - t..] && block[t..] == data[..64 - t]
    ensures block == (was + data)[|was| - t..|was| - t + 64]
  {
    assert block == block[..t] + block[t..];
  }

  /** struct MD5Context.  The block is a union: `words` are the sixteen words made from its bytes. */
  class Context {
    const buf: array<word>
    var bits0: word
    var bits1: word
    const bytes: array<byte>
    const words: array<word>
    /** Everything that was passed to Update, and the number of blocks taken in. */
    ghost var message: seq<byte>
    ghost var blocks: nat

    ghost predicate Shape()
    {
      buf.Length == 4 && bytes.Length == 64 && words.Length == 16 && buf != words
    }

    ghost predicate Valid()
      reads this, buf, bytes
    {
      Shape() && BitCount(bits0, bits1, |message|) && Holding()
    }

    /** The state covers all whole blocks of the message, and the block holds the bytes left over. */
    ghost predicate Holding()
      requires Shape()
      reads this`message, this`blocks, buf, bytes
    {
      && 64 * blocks <= |message| < 64 * blocks + 64
      && Absorbed(message, blocks)
      && bytes[..|message| - 64 * blocks] == message[64 * blocks..]
    }

    /** The state is the one after the first n blocks. */
    ghost predicate Absorbed(data: seq<byte>, n: nat)
      requires Shape()
      reads buf
    {
      64 * n <= |data| && buf[..] == Absorb(data, n)
    }

    /** MD5Init */
    constructor ()
      ensures Valid() && message == []
      ensures fresh(buf) && fresh(bytes) && fresh(words)
    {
      buf := new word[4][0x67452301, 0xEFCDAB89, 0x98BADCFE, 0x10325476];
      bytes := new byte[64](_ => 0);
      words := new word[16](_ => 0);
      bits0, bits1, message, blocks := 0, 0, [], 0;
      new;
      assert buf[..] == INIT;
    }

    /** memcpy to the block: it stays inside. */
    method Copy(data: seq<byte>, at: nat)
      requires Shape() && at + |data| <= 64
      modifies bytes
      ensures bytes[..] == old(bytes[..])[..at] + data + old(bytes[..])[at + |data|..]
    {
      for i := 0 to |data|
        invariant bytes[..] == old(bytes[..])[..at] + data[..i] + old(bytes[..])[at + i..]
      {
        bytes[at + i] := data[i];
      }
    }

    method CopyBlock(data: seq<byte>)
      requires Shape() && |data| == 64
      modifies bytes
      ensures bytes[..] == data
    {
      Copy(data, 0);
    }

    method CopyFront(data: seq<byte>)
      requires Shape() && |data| <= 64
      modifies bytes
      ensures bytes[..|data|] == data
    {
      Copy(data, 0);
    }

    /** memset of n bytes of the block. */
    method Clear(at: nat, n: nat)
      requires Shape() && at + n <= 64
      modifies bytes
      ensures bytes[..] == old(bytes[..])[..at] + Zeros(n) + old(bytes[..])[at + n..]
    {
      Copy(Zeros(n), at);
    }

    /** byteReverse of the block's first words. */
    method ByteReverse(longs: nat)
      requires Shape() && longs <= 16
      modifies words
      ensures words[..longs] == BlockWords(bytes[..], 0)[..longs]
    {
      for i := 0 to longs
        invariant forall k :: 0 <= k < i ==> words[k] == BlockWords(bytes[..], 0)[k]
      {
        words[i] := FromLe32(bytes[4 * i..4 * i + 4]);
        assert bytes[4 * i..4 * i + 4] == bytes[..][4 * i..4 * i + 4];
      }
    }

    method AddTo(a: word, b: word, c: word, d: word)
      requires Shape()
      modifies buf
      ensures buf[..] == Added(old(buf[..]), (a, b, c, d))
    {
      buf[0], buf[1], buf[2], buf[3] := Word(buf[0] + a), Word(buf[1] + b), Word(buf[2] + c), Word(buf[3] + d);
    }

    /** MD5Transform */
    method Transform()
      requires Shape()
      modifies buf
      ensures buf[..] == Compress(old(buf[..]), words[..])
    {
      var a, b, c, d := Rounds(words, buf[..]);
      AddTo(a, b, c, d);
    }

    /** Take in a full block, which is block n of the data. */
    method AbsorbBlock(ghost data: seq<byte>, ghost n: nat)
      requires Shape() && Absorbed(data, n) && 64 * n + 64 <= |data|
      requires bytes[..] == data[64 * n..64 * n + 64]
      modifies buf, words
      ensures Absorbed(data, n + 1)
    {
      ByteReverse(16);
      assert words[..16] == words[..] && BlockWords(bytes[..], 0)[..16] == BlockWords(bytes[..], 0);
      SameWords(bytes[..], 0, data, 64 * n);
      Transform();
    }

    /** Count the bits of more data. */
    method Count(len: nat)
      requires len < 0x1_0000_0000 && BitCount(bits0, bits1, |message|)
      modifies this`bits0, this`bits1
      ensures BitCount(bits0, bits1, |message| + len)
    {
      var lo, hi := bits0, bits1;
      bits0 := Word(lo + Word(8 * len));
      if bits0 < lo {
        bits1 := Word(bits1 + 1);
      }
      bits1 := Word(bits1 + len / 0x2000_0000);
      CountBits(lo, hi, |message|, len);
    }

    /** The data is the end of the message, and all before position i of it has been taken in. */
    ghost predicate TakenIn(data: seq<byte>, i: nat)
      requires Shape()
      reads this`message, this`blocks, buf
    {
      && i <= |data| <= |message| && data == message[|message| - |data|..]
      && |message| - |data| + i == 64 * blocks
      && Absorbed(message, blocks)
    }

    method TakeBlock(data: seq<byte>, i: nat)
      requires Shape() && TakenIn(data, i) && i + 64 <= |data|
      modifies this`blocks, buf, bytes, words
      ensures TakenIn(data, i + 64)
    {
      SliceOfEnd(message, data, i, i + 64, 64 * blocks);
      CopyBlock(data[i..i + 64]);
      AbsorbBlock(message, blocks);
      blocks := blocks + 1;
    }

    method KeepRest(data: seq<byte>, i: nat)
      requires Shape() && TakenIn(data, i) && |data| - i < 64
      modifies bytes
      ensures Holding()
    {
      SliceOfEnd(message, data, i, |data|, 64 * blocks);
      ghost var rest := message[64 * blocks..];
      assert data[i..|data|] == data[i..] && message[64 * blocks..64 * blocks + |data| - i] == rest;
      CopyFront(data[i..]);
      assert bytes[..|rest|] == rest;
    }

    /** Take in the whole blocks of the data from pos on, and keep the rest. */
    method UpdateBlocks(data: seq<byte>, pos: nat)
      requires Shape() && TakenIn(data, pos)
      modifies this`blocks, buf, bytes, words
      ensures Holding()
    {
      var i := pos;
      while |data| - i >= 64
        invariant TakenIn(data, i)
      {
        TakeBlock(data, i);
        i := i + 64;
      }
      KeepRest(data, i);
    }

    /** Complete the kept bytes to a block. */
    method FillBlock(t: nat, data: seq<byte>, ghost was: seq<byte>)
      requires Shape() && message == was + data && 0 < t == |was| - 64 * blocks < 64 && 64 - t <= |data|
      requires Absorbed(message, blocks) && bytes[..t] == was[|was| - t..]
      modifies this`blocks, buf, bytes, words
      ensures TakenIn(data, 64 - t)
    {
      Copy(data[..64 - t], t);
      FilledBlock(was, data, bytes[..], t);
      AbsorbBlock(message, blocks);
      blocks := blocks + 1;
    }

    /** Take in more data when t bytes are kept. */
    method UpdateData(t: nat, data: seq<byte>)
      requires Shape() && Holding() && t == |message| - 64 * blocks
      modifies this`message, this`blocks, buf, bytes, words
      ensures Holding() && message == old(message) + data
    {
      ghost var was := message;
      message := was + data;
      AbsorbPrefix(was, data, blocks);
      if t == 0 {
        UpdateBlocks(data, 0);
      } else if |data| < 64 - t {
        Copy(data, t);
        KeptBytes(was, data, bytes[..], t);
      } else {
        FillBlock(t, data, was);
        UpdateBlocks(data, 64 - t);
      }
    }

    /** MD5Update */
    method Update(data: seq<byte>)
      requires Valid() && |data| < 0x1_0000_0000
      modifies this, buf, bytes, words
      ensures Valid() && message == old(message) + data
    {
      Buffered(bits0, bits1, |message|);
      WholeBlocks(|message|, blocks);
      var t := bits0 / 8 % 64;
      Count(|data|);
      UpdateData(t, data);
    }

    /** The last block: the count of bits goes into its last two words. */
    method LastBlock(ghost padded: seq<byte>)
      requires Shape() && |padded| == 64 * blocks + 64 && Absorbed(padded, blocks)
      requires bytes[..56] == padded[64 * blocks..64 * blocks + 56]
      requires padded[64 * blocks + 56..] == Le32(bits0) + Le32(bits1)
      modifies buf, words
      ensures buf[..] == Absorb(padded, |padded| / 64)
    {
      ByteReverse(14);
      words[14] := bits0;
      words[15] := bits1;
      LastWords(padded, blocks, bytes[..], bits0, bits1);
      assert words[..] == words[..14] + [bits0, bits1];
      Transform();
      assert |padded| / 64 == blocks + 1;
    }

    /** The first padding byte, and zeros up to the end of the block or to the count. */
    method PadTo(count: nat, end: nat)
      requires Shape() && count < end <= 64
      modifies bytes
      ensures bytes[..end] == old(bytes[..])[..count] + [0x80] + Zeros(end - count - 1)
    {
      Copy([0x80], count);
      Clear(count + 1, end - count - 1);
    }

    method PadShort(count: nat, ghost padded: seq<byte>)
      requires Shape() && Absorbed(padded, blocks) && count == |message| - 64 * blocks
      requires ShortPadded(message, blocks, padded, Le32(bits0) + Le32(bits1))
      requires bytes[..count] == message[64 * blocks..]
      modifies this`blocks, buf, bytes, words
      ensures buf[..] == Absorb(padded, |padded| / 64)
    {
      PadTo(count, 56);
      LastBlock(padded);
    }

    method PadLong(count: nat, ghost padded: seq<byte>)
      requires Shape() && Absorbed(padded, blocks) && count == |message| - 64 * blocks
      requires LongPadded(message, blocks, padded, Le32(bits0) + Le32(bits1))
      requires bytes[..count] == message[64 * blocks..]
      modifies this`blocks, buf, bytes, words
      ensures buf[..] == Absorb(padded, |padded| / 64)
    {
      PadBlock(count, padded);
      ClearBlock();
      LastBlock(padded);
    }

    /** Fill the block with padding and take it in. */
    method PadBlock(count: nat, ghost padded: seq<byte>)
      requires Shape() && Absorbed(padded, blocks) && count < 64 && 64 * blocks + 64 <= |padded|
      requires padded[64 * blocks..64 * blocks + 64] == bytes[..count] + [0x80] + Zeros(63 - count)
      modifies this`blocks, buf, bytes, words
      ensures blocks == old(blocks) + 1 && Absorbed(padded, blocks)
    {
      PadTo(count, 64);
      assert bytes[..64] == bytes[..] && old(bytes[..])[..count] == old(bytes[..count]);
      AbsorbBlock(padded, blocks);
      blocks := blocks + 1;
    }

    method ClearBlock()
      requires Shape()
      modifies bytes
      ensures bytes[..56] == Zeros(56)
    {
      Clear(0, 56);
    }

    /** Pad the message and take in what is left. */
    method Pad(count: nat)
      requires Valid() && count == |message| - 64 * blocks
      modifies this`blocks, buf, bytes, words
      ensures var padded := Padded(message); buf[..] == Absorb(padded, |padded| / 64)
    {
      ghost var padded := Padded(message);
      PaddedBlocks(message, blocks, bits0, bits1);
      AbsorbPrefix(message, padded[|message|..], blocks);
      if 63 - count < 8 {
        PadLong(count, padded);
      } else {
        PadShort(count, padded);
      }
    }

    /** MD5Final, which forgets everything afterwards. */
    method Final() returns (digest: seq<byte>)
      requires Valid()
      modifies this, buf, bytes, words
      ensures digest == Digest(old(message))
      ensures bits0 == bits1 == 0 && buf[..] == [0, 0, 0, 0]
              && forall k :: 0 <= k < 64 && k < bytes.Length ==> bytes[k] == 0
    {
      Buffered(bits0, bits1, |message|);
      WholeBlocks(|message|, blocks);
      Pad(bits0 / 8 % 64);
      digest := Le32(buf[0]) + Le32(buf[1]) + Le32(buf[2]) + Le32(buf[3]);
      bits0, bits1 := 0, 0;
      buf[0], buf[1], buf[2], buf[3] := 0, 0, 0, 0;
      Clear(0, 64);
    }
  }

  /** A padding that fits into the last block, or one that needs another block. */
  ghost predicate ShortPadded(message: seq<byte>, n: nat, p: seq<byte>, length: seq<byte>) {
    && |p| == 64 * n + 64 && 64 * n <= |message| < 64 * n + 56
    && p[64 * n..64 * n + 56] == message[64 * n..] + [0x80] + Zeros(64 * n + 55 - |message|)
    && p[64 * n + 56..] == length
  }

  ghost predicate LongPadded(message: seq<byte>, n: nat, p: seq<byte>, length: seq<byte>) {
    && |p| == 64 * n + 128 && 64 * n + 56 <= |message| < 64 * n + 64
    && p[64 * n..64 * n + 64] == message[64 * n..] + [0x80] + Zeros(64 * n + 63 - |message|)
    && p[64 * n + 64..64 * n + 120] == Zeros(56)
    && p[64 * n + 120..] == length
  }

  lemma ShortPadding(message: seq<byte>, n: nat, p: seq<byte>, length: seq<byte>)
    requires 64 * n <= |message| < 64 * n + 56 && |length| == 8
    requires p == message + [0x80] + Zeros(64 * n + 55 - |message|) + length
    ensures ShortPadded(message, n, p, length)
  {
  }

  lemma LongPadding(message: seq<byte>, n: nat, p: seq<byte>, length: seq<byte>)
    requires 64 * n + 56 <= |message| < 64 * n + 64 && |length| == 8
    requires p == message + [0x80] + Zeros(64 * n + 119 - |message|) + length
    ensures LongPadded(message, n, p, length)
  {
  }

  /** What the padding adds to the last bytes of a message. */
  lemma PaddedBlocks(message: seq<byte>, n: nat, lo: word, hi: word)
    requires 64 * n <= |message| < 64 * n + 64 && BitCount(lo, hi, |message|)
    ensures var (p, length) := (Padded(message), Le32(lo) + Le32(hi));
            && p == message + p[|message|..]
            && if |message| < 64 * n + 56 then ShortPadded(message, n, p, length) else LongPadded(message, n, p, length)
  {
    LengthIs(lo, hi, |message|);
    PadCount(|message|, n);
    var (p, length) := (Padded(message), Le32(lo) + Le32(hi));
    if |message| < 64 * n + 56 {
      ShortPadding(message, n, p, length);
    } else {
      LongPadding(message, n, p, length);
    }
  }

  lemma PadCount(size: nat, n: nat)
    requires 64 * n <= size < 64 * n + 64
    ensures (55 - size) % 64 == if size < 64 * n + 56 then 64 * n + 55 - size else 64 * n + 119 - size
  {
  }

  lemma LastWords(padded: seq<byte>, n: nat, block: seq<byte>, lo: word, hi: word)
    requires |padded| == 64 * n + 64 && |block| == 64 && block[..56] == padded[64 * n..64 * n + 56]
    requires padded[64 * n + 56..] == Le32(lo) + Le32(hi)
    ensures BlockWords(padded, 64 * n) == BlockWords(block, 0)[..14] + [lo, hi]
  {
    forall k | 0 <= k < 14 ensures BlockWords(padded, 64 * n)[k] == BlockWords(block, 0)[k] {
      SliceOf(padded, 64 * n, 56, 4 * k, 4 * k + 4);
      SliceOf(block, 0, 56, 4 * k, 4 * k + 4);
    }
    assert padded[64 * n + 56..64 * n + 60] == Le32(lo) && padded[64 * n + 60..64 * n + 64] == Le32(hi);
    Le32Back(lo);
    Le32Back(hi);
  }

  /** All the data, one piece after the other. */
  function Joined(pieces: seq<seq<byte>>): seq<byte> {
    if pieces == [] then [] else Joined(pieces[..|pieces| - 1]) + pieces[|pieces| - 1]
  }

  /** However a message is split into pieces, its digest is the same. */
  method HashPieces(pieces: seq<seq<byte>>) returns (digest: seq<byte>)
    requires forall piece :: piece in pieces ==> |piece| < 0x1_0000_0000
    ensures digest == Digest(Joined(pieces))
  {
    var ctx := new Context();
    for i := 0 to |pieces|
      invariant ctx.Valid() && ctx.message == Joined(pieces[..i])
      invariant fresh(ctx) && fresh(ctx.buf) && fresh(ctx.bytes) && fresh(ctx.words)
    {
      ctx.Update(pieces[i]);
      assert pieces[..i + 1][..i] == pieces[..i];
    }
    assert pieces[..|pieces|] == pieces;
    digest := ctx.Final();
  }

  lemma TakeMore<T>(s: seq<T>, i: nat, n: nat)
    requires i + n <= |s|
    ensures s[..i] + s[i..i + n] == s[..i + n]
  {
  }

  const CHUNK_SIZE := 16384

  /** The signature of a file, read in chunks into a buffer. */
  method HashFile(file: seq<byte>) returns (digest: seq<byte>)
    ensures digest == Digest(file)
  {
    var ctx := new Context();
    var pos := 0;
    while pos < |file|
      invariant pos <= |file| && ctx.Valid() && ctx.message == file[..pos]
      invariant fresh(ctx) && fresh(ctx.buf) && fresh(ctx.bytes) && fresh(ctx.words)
    {
      var n := if |file| - pos < CHUNK_SIZE then |file| - pos else CHUNK_SIZE;
      TakeMore(file, pos, n);
      ctx.Update(file[pos..pos + n]);
      pos := pos + n;
    }
    assert file[..|file|] == file;
    digest := ctx.Final();
  }
}
