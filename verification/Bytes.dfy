/** Bytes and the byte orders of the file formats. */
module Bytes {

  type byte = x: int | 0 <= x < 0x100

  /** cpu_to_be32, most significant byte first. */
  function Be32(x: nat): (b: seq<byte>)
    requires x < 0x1_0000_0000
    ensures |b| == 4
  {
    [x / 0x100_0000, x / 0x1_0000 % 0x100, x / 0x100 % 0x100, x % 0x100]
  }

  function FromBe32(b: seq<byte>): (x: nat)
    requires |b| == 4
    ensures x < 0x1_0000_0000
  {
    var b0: nat, b1: nat, b2: nat, b3: nat := b[0], b[1], b[2], b[3];
    b0 * 0x100_0000 + b1 * 0x1_0000 + b2 * 0x100 + b3
  }

  /** Least significant byte first; higher bits are cut off. */
  function Le32(x: nat): (b: seq<byte>)
    ensures |b| == 4
  {
    [x % 0x100, x / 0x100 % 0x100, x / 0x1_0000 % 0x100, x / 0x100_0000 % 0x100]
  }

  function FromLe32(b: seq<byte>): (x: nat)
    requires |b| == 4
    ensures x < 0x1_0000_0000
  {
    var b0: nat, b1: nat, b2: nat, b3: nat := b[0], b[1], b[2], b[3];
    b0 + b1 * 0x100 + b2 * 0x1_0000 + b3 * 0x100_0000
  }

  function Be16(x: nat): (b: seq<byte>)
    requires x < 0x1_0000
    ensures |b| == 2
  {
    [x / 0x100, x % 0x100]
  }

  function FromBe16(b: seq<byte>): (x: nat)
    requires |b| == 2
    ensures x < 0x1_0000
  {
    var b0: nat, b1: nat := b[0], b[1];
    b0 * 0x100 + b1
  }

  /** A slice of a slice is a slice. */
  lemma SliceOf<T>(s: seq<T>, at: nat, n: nat, i: nat, j: nat)
    requires i <= j <= n && at + n <= |s|
    ensures s[at..at + n][i..j] == s[at + i..at + j]
  {
    var whole := s[at..at + n];
    var part := whole[i..j];
    forall k | 0 <= k < |part| ensures part[k] == s[at + i..at + j][k] {
      assert part[k] == whole[i + k] == s[at + (i + k)];
    }
  }

  /** A slice of the end of a sequence is a slice of the sequence. */
  lemma SliceOfEnd<T>(s: seq<T>, end: seq<T>, i: nat, j: nat, at: nat)
    requires |end| <= |s| && end == s[|s| - |end|..]
    requires i <= j <= |end| && at == |s| - |end| + i
    ensures end[i..j] == s[at..at + j - i]
  {
    SliceOf(s, |s| - |end|, |end|, i, j);
    assert s[|s| - |end|..|s| - |end| + |end|] == end;
  }

  lemma Be32Halves(x: nat)
    requires x < 0x1_0000_0000
    ensures Be32(x) == Be16(x / 0x1_0000) + Be16(x % 0x1_0000)
  {
    assert x / 0x1_0000 / 0x100 == x / 0x100_0000;
    LowDigits(x);
  }

  lemma LowDigits(x: nat)
    ensures x / 0x100 % 0x100 == x % 0x1_0000 / 0x100 && x % 0x100 == x % 0x1_0000 % 0x100
  {
    var (hi, lo) := (x / 0x1_0000, x % 0x1_0000);
    assert x == hi * 0x1_0000 + lo;
    assert x / 0x100 == hi * 0x100 + lo / 0x100;
  }

  lemma Le32Back(x: nat)
    requires x < 0x1_0000_0000
    ensures FromLe32(Le32(x)) == x
  {
    assert Le32(x) == [Be32(x)[3], Be32(x)[2], Be32(x)[1], Be32(x)[0]];
    Be32Back(x);
  }

  lemma FromBe32Halves(b: seq<byte>)
    requires |b| == 4
    ensures FromBe32(b) == FromBe16(b[..2]) * 0x1_0000 + FromBe16(b[2..])
  {
  }

  lemma Be32Back(x: nat)
    requires x < 0x1_0000_0000
    ensures FromBe32(Be32(x)) == x
  {
    var (hi, lo) := (x / 0x1_0000, x % 0x1_0000);
    Be32Halves(x);
    FromBe32Halves(Be32(x));
    Be16Back(hi);
    Be16Back(lo);
    assert (Be16(hi) + Be16(lo))[..2] == Be16(hi) && (Be16(hi) + Be16(lo))[2..] == Be16(lo);
  }

  lemma FromBe32Back(b: seq<byte>)
    requires |b| == 4
    ensures Be32(FromBe32(b)) == b
  {
    var (hi, lo) := (FromBe16(b[..2]), FromBe16(b[2..]));
    FromBe32Halves(b);
    assert (hi * 0x1_0000 + lo) / 0x1_0000 == hi && (hi * 0x1_0000 + lo) % 0x1_0000 == lo;
    Be32Halves(FromBe32(b));
    FromBe16Back(b[..2]);
    FromBe16Back(b[2..]);
  }

  lemma Be16Back(x: nat)
    requires x < 0x1_0000
    ensures FromBe16(Be16(x)) == x
  {
  }

  lemma FromBe16Back(b: seq<byte>)
    requires |b| == 2
    ensures Be16(FromBe16(b)) == b
  {
  }
}
