/** The CRC-8 of the SPROM tool: its table, and the shift register behind it. */
module SpromCrc {
  import opened Folding
  import opened Polynomials

  /** crc8's table, sixteen entries a row. */
  function Table(x: bv8): bv8 {
    if x < 0x10 then Row0(x)
    else if x < 0x20 then Row1(x)
    else if x < 0x30 then Row2(x)
    else if x < 0x40 then Row3(x)
    else if x < 0x50 then Row4(x)
    else if x < 0x60 then Row5(x)
    else if x < 0x70 then Row6(x)
    else if x < 0x80 then Row7(x)
    else if x < 0x90 then Row8(x)
    else if x < 0xA0 then Row9(x)
    else if x < 0xB0 then RowA(x)
    else if x < 0xC0 then RowB(x)
    else if x < 0xD0 then RowC(x)
    else if x < 0xE0 then RowD(x)
    else if x < 0xF0 then RowE(x)
    else RowF(x)
  }

  function Row0(x: bv8): bv8 {
    match x
    case 0x00 => 0x00  case 0x01 => 0xF7  case 0x02 => 0xB9  case 0x03 => 0x4E
    case 0x04 => 0x25  case 0x05 => 0xD2  case 0x06 => 0x9C  case 0x07 => 0x6B
    case 0x08 => 0x4A  case 0x09 => 0xBD  case 0x0A => 0xF3  case 0x0B => 0x04
    case 0x0C => 0x6F  case 0x0D => 0x98  case 0x0E => 0xD6  case 0x0F => 0x21
    case _ => 0
  }

  function Row1(x: bv8): bv8 {
    match x
    case 0x10 => 0x94  case 0x11 => 0x63  case 0x12 => 0x2D  case 0x13 => 0xDA
    case 0x14 => 0xB1  case 0x15 => 0x46  case 0x16 => 0x08  case 0x17 => 0xFF
    case 0x18 => 0xDE  case 0x19 => 0x29  case 0x1A => 0x67  case 0x1B => 0x90
    case 0x1C => 0xFB  case 0x1D => 0x0C  case 0x1E => 0x42  case 0x1F => 0xB5
    case _ => 0
  }

  function Row2(x: bv8): bv8 {
    match x
    case 0x20 => 0x7F  case 0x21 => 0x88  case 0x22 => 0xC6  case 0x23 => 0x31
    case 0x24 => 0x5A  case 0x25 => 0xAD  case 0x26 => 0xE3  case 0x27 => 0x14
    case 0x28 => 0x35  case 0x29 => 0xC2  case 0x2A => 0x8C  case 0x2B => 0x7B
    case 0x2C => 0x10  case 0x2D => 0xE7  case 0x2E => 0xA9  case 0x2F => 0x5E
    case _ => 0
  }

  function Row3(x: bv8): bv8 {
    match x
    case 0x30 => 0xEB  case 0x31 => 0x1C  case 0x32 => 0x52  case 0x33 => 0xA5
    case 0x34 => 0xCE  case 0x35 => 0x39  case 0x36 => 0x77  case 0x37 => 0x80
    case 0x38 => 0xA1  case 0x39 => 0x56  case 0x3A => 0x18  case 0x3B => 0xEF
    case 0x3C => 0x84  case 0x3D => 0x73  case 0x3E => 0x3D  case 0x3F => 0xCA
    case _ => 0
  }

  function Row4(x: bv8): bv8 {
    match x
    case 0x40 => 0xFE  case 0x41 => 0x09  case 0x42 => 0x47  case 0x43 => 0xB0
    case 0x44 => 0xDB  case 0x45 => 0x2C  case 0x46 => 0x62  case 0x47 => 0x95
    case 0x48 => 0xB4  case 0x49 => 0x43  case 0x4A => 0x0D  case 0x4B => 0xFA
    case 0x4C => 0x91  case 0x4D => 0x66  case 0x4E => 0x28  case 0x4F => 0xDF
    case _ => 0
  }

  function Row5(x: bv8): bv8 {
    match x
    case 0x50 => 0x6A  case 0x51 => 0x9D  case 0x52 => 0xD3  case 0x53 => 0x24
    case 0x54 => 0x4F  case 0x55 => 0xB8  case 0x56 => 0xF6  case 0x57 => 0x01
    case 0x58 => 0x20  case 0x59 => 0xD7  case 0x5A => 0x99  case 0x5B => 0x6E
    case 0x5C => 0x05  case 0x5D => 0xF2  case 0x5E => 0xBC  case 0x5F => 0x4B
    case _ => 0
  }

  function Row6(x: bv8): bv8 {
    match x
    case 0x60 => 0x81  case 0x61 => 0x76  case 0x62 => 0x38  case 0x63 => 0xCF
    case 0x64 => 0xA4  case 0x65 => 0x53  case 0x66 => 0x1D  case 0x67 => 0xEA
    case 0x68 => 0xCB  case 0x69 => 0x3C  case 0x6A => 0x72  case 0x6B => 0x85
    case 0x6C => 0xEE  case 0x6D => 0x19  case 0x6E => 0x57  case 0x6F => 0xA0
    case _ => 0
  }

  function Row7(x: bv8): bv8 {
    match x
    case 0x70 => 0x15  case 0x71 => 0xE2  case 0x72 => 0xAC  case 0x73 => 0x5B
    case 0x74 => 0x30  case 0x75 => 0xC7  case 0x76 => 0x89  case 0x77 => 0x7E
    case 0x78 => 0x5F  case 0x79 => 0xA8  case 0x7A => 0xE6  case 0x7B => 0x11
    case 0x7C => 0x7A  case 0x7D => 0x8D  case 0x7E => 0xC3  case 0x7F => 0x34
    case _ => 0
  }

  function Row8(x: bv8): bv8 {
    match x
    case 0x80 => 0xAB  case 0x81 => 0x5C  case 0x82 => 0x12  case 0x83 => 0xE5
    case 0x84 => 0x8E  case 0x85 => 0x79  case 0x86 => 0x37  case 0x87 => 0xC0
    case 0x88 => 0xE1  case 0x89 => 0x16  case 0x8A => 0x58  case 0x8B => 0xAF
    case 0x8C => 0xC4  case 0x8D => 0x33  case 0x8E => 0x7D  case 0x8F => 0x8A
    case _ => 0
  }

  function Row9(x: bv8): bv8 {
    match x
    case 0x90 => 0x3F  case 0x91 => 0xC8  case 0x92 => 0x86  case 0x93 => 0x71
    case 0x94 => 0x1A  case 0x95 => 0xED  case 0x96 => 0xA3  case 0x97 => 0x54
    case 0x98 => 0x75  case 0x99 => 0x82  case 0x9A => 0xCC  case 0x9B => 0x3B
    case 0x9C => 0x50  case 0x9D => 0xA7  case 0x9E => 0xE9  case 0x9F => 0x1E
    case _ => 0
  }

  function RowA(x: bv8): bv8 {
    match x
    case 0xA0 => 0xD4  case 0xA1 => 0x23  case 0xA2 => 0x6D  case 0xA3 => 0x9A
    case 0xA4 => 0xF1  case 0xA5 => 0x06  case 0xA6 => 0x48  case 0xA7 => 0xBF
    case 0xA8 => 0x9E  case 0xA9 => 0x69  case 0xAA => 0x27  case 0xAB => 0xD0
    case 0xAC => 0xBB  case 0xAD => 0x4C  case 0xAE => 0x02  case 0xAF => 0xF5
    case _ => 0
  }

  function RowB(x: bv8): bv8 {
    match x
    case 0xB0 => 0x40  case 0xB1 => 0xB7  case 0xB2 => 0xF9  case 0xB3 => 0x0E
    case 0xB4 => 0x65  case 0xB5 => 0x92  case 0xB6 => 0xDC  case 0xB7 => 0x2B
    case 0xB8 => 0x0A  case 0xB9 => 0xFD  case 0xBA => 0xB3  case 0xBB => 0x44
    case 0xBC => 0x2F  case 0xBD => 0xD8  case 0xBE => 0x96  case 0xBF => 0x61
    case _ => 0
  }

  function RowC(x: bv8): bv8 {
    match x
    case 0xC0 => 0x55  case 0xC1 => 0xA2  case 0xC2 => 0xEC  case 0xC3 => 0x1B
    case 0xC4 => 0x70  case 0xC5 => 0x87  case 0xC6 => 0xC9  case 0xC7 => 0x3E
    case 0xC8 => 0x1F  case 0xC9 => 0xE8  case 0xCA => 0xA6  case 0xCB => 0x51
    case 0xCC => 0x3A  case 0xCD => 0xCD  case 0xCE => 0x83  case 0xCF => 0x74
    case _ => 0
  }

  function RowD(x: bv8): bv8 {
    match x
    case 0xD0 => 0xC1  case 0xD1 => 0x36  case 0xD2 => 0x78  case 0xD3 => 0x8F
    case 0xD4 => 0xE4  case 0xD5 => 0x13  case 0xD6 => 0x5D  case 0xD7 => 0xAA
    case 0xD8 => 0x8B  case 0xD9 => 0x7C  case 0xDA => 0x32  case 0xDB => 0xC5
    case 0xDC => 0xAE  case 0xDD => 0x59  case 0xDE => 0x17  case 0xDF => 0xE0
    case _ => 0
  }

  function RowE(x: bv8): bv8 {
    match x
    case 0xE0 => 0x2A  case 0xE1 => 0xDD  case 0xE2 => 0x93  case 0xE3 => 0x64
    case 0xE4 => 0x0F  case 0xE5 => 0xF8  case 0xE6 => 0xB6  case 0xE7 => 0x41
    case 0xE8 => 0x60  case 0xE9 => 0x97  case 0xEA => 0xD9  case 0xEB => 0x2E
    case 0xEC => 0x45  case 0xED => 0xB2  case 0xEE => 0xFC  case 0xEF => 0x0B
    case _ => 0
  }

  function RowF(x: bv8): bv8 {
    match x
    case 0xF0 => 0xBE  case 0xF1 => 0x49  case 0xF2 => 0x07  case 0xF3 => 0xF0
    case 0xF4 => 0x9B  case 0xF5 => 0x6C  case 0xF6 => 0x22  case 0xF7 => 0xD5
    case 0xF8 => 0xF4  case 0xF9 => 0x03  case 0xFA => 0x4D  case 0xFB => 0xBA
    case 0xFC => 0xD1  case 0xFD => 0x26  case 0xFE => 0x68  case 0xFF => 0x9F
    case _ => 0
  }

  /** One clock of the register: the lowest bit leaves it, and the polynomial without its highest term,
      mirrored, is added if that was a one. */
  function Clock(c: bv8): bv8 {
    if c & 1 == 1 then (c >> 1) ^ 0xAB else c >> 1
  }

  function EightClocks(c: bv8): bv8 {
    Clock(Clock(Clock(Clock(Clock(Clock(Clock(Clock(c))))))))
  }

  lemma Row0Is(x: bv8)
    requires 0x00 <= x <= 0x0F
    ensures Row0(x) == EightClocks(x)
  {
  }

  lemma Row1Is(x: bv8)
    requires 0x10 <= x <= 0x1F
    ensures Row1(x) == EightClocks(x)
  {
  }

  lemma Row2Is(x: bv8)
    requires 0x20 <= x <= 0x2F
    ensures Row2(x) == EightClocks(x)
  {
  }

  lemma Row3Is(x: bv8)
    requires 0x30 <= x <= 0x3F
    ensures Row3(x) == EightClocks(x)
  {
  }

  lemma Row4Is(x: bv8)
    requires 0x40 <= x <= 0x4F
    ensures Row4(x) == EightClocks(x)
  {
  }

  lemma Row5Is(x: bv8)
    requires 0x50 <= x <= 0x5F
    ensures Row5(x) == EightClocks(x)
  {
  }

  lemma Row6Is(x: bv8)
    requires 0x60 <= x <= 0x6F
    ensures Row6(x) == EightClocks(x)
  {
  }

  lemma Row7Is(x: bv8)
    requires 0x70 <= x <= 0x7F
    ensures Row7(x) == EightClocks(x)
  {
  }

  lemma Row8Is(x: bv8)
    requires 0x80 <= x <= 0x8F
    ensures Row8(x) == EightClocks(x)
  {
  }

  lemma Row9Is(x: bv8)
    requires 0x90 <= x <= 0x9F
    ensures Row9(x) == EightClocks(x)
  {
  }

  lemma RowAIs(x: bv8)
    requires 0xA0 <= x <= 0xAF
    ensures RowA(x) == EightClocks(x)
  {
  }

  lemma RowBIs(x: bv8)
    requires 0xB0 <= x <= 0xBF
    ensures RowB(x) == EightClocks(x)
  {
  }

  lemma RowCIs(x: bv8)
    requires 0xC0 <= x <= 0xCF
    ensures RowC(x) == EightClocks(x)
  {
  }

  lemma RowDIs(x: bv8)
    requires 0xD0 <= x <= 0xDF
    ensures RowD(x) == EightClocks(x)
  {
  }

  lemma RowEIs(x: bv8)
    requires 0xE0 <= x <= 0xEF
    ensures RowE(x) == EightClocks(x)
  {
  }

  lemma RowFIs(x: bv8)
    requires 0xF0 <= x <= 0xFF
    ensures RowF(x) == EightClocks(x)
  {
  }

  /** The table holds what eight clocks make of each byte. */
  lemma TableIsClocks(x: bv8)
    ensures Table(x) == EightClocks(x)
  {
    if x < 0x10 { Row0Is(x); }
    else if x < 0x20 { Row1Is(x); }
    else if x < 0x30 { Row2Is(x); }
    else if x < 0x40 { Row3Is(x); }
    else if x < 0x50 { Row4Is(x); }
    else if x < 0x60 { Row5Is(x); }
    else if x < 0x70 { Row6Is(x); }
    else if x < 0x80 { Row7Is(x); }
    else if x < 0x90 { Row8Is(x); }
    else if x < 0xA0 { Row9Is(x); }
    else if x < 0xB0 { RowAIs(x); }
    else if x < 0xC0 { RowBIs(x); }
    else if x < 0xD0 { RowCIs(x); }
    else if x < 0xE0 { RowDIs(x); }
    else if x < 0xF0 { RowEIs(x); }
    else { RowFIs(x); }
  }

  // ---------------------------------------------------------------- the register

  /** The register fed with one byte: it is added to the register, and the clock runs for its eight bits. */
  function Feed(c: bv8, data: bv8): bv8 {
    Iterate(Clock, c ^ data, 8)
  }

  /** The register after all the data. */
  function Register(c: bv8, data: seq<bv8>): bv8 {
    Fold(Feed, c, data)
  }

  /** crc8 */
  function Crc8(crc: bv8, data: bv8): bv8 {
    Table(crc ^ data)
  }

  /** One lookup in the table is one byte fed to the register. */
  lemma Crc8IsFeed(crc: bv8, data: bv8)
    ensures Crc8(crc, data) == Feed(crc, data)
  {
    TableIsClocks(crc ^ data);
    EightIterates(crc ^ data);
  }

  function Xor(x: bv8, y: bv8): bv8 {
    x ^ y
  }

  lemma ClockLinear(x: bv8, y: bv8)
    ensures Clock(x ^ y) == Clock(x) ^ Clock(y)
  {
  }

  lemma EightIterates(c: bv8)
    ensures EightClocks(c) == Iterate(Clock, c, 8)
  {
    assert Iterate(Clock, c, 1) == Clock(Iterate(Clock, c, 0)) && Iterate(Clock, c, 2) == Clock(Iterate(Clock, c, 1));
    assert Iterate(Clock, c, 3) == Clock(Iterate(Clock, c, 2)) && Iterate(Clock, c, 4) == Clock(Iterate(Clock, c, 3));
    assert Iterate(Clock, c, 5) == Clock(Iterate(Clock, c, 4)) && Iterate(Clock, c, 6) == Clock(Iterate(Clock, c, 5));
    assert Iterate(Clock, c, 7) == Clock(Iterate(Clock, c, 6)) && Iterate(Clock, c, 8) == Clock(Iterate(Clock, c, 7));
  }

  lemma OnlyZeroToZero(x: bv8)
    ensures EightClocks(x) == 0 <==> x == 0
  {
  }

  lemma XorPairs(a: bv8, b: bv8, c: bv8, d: bv8)
    ensures (a ^ b) ^ (c ^ d) == (a ^ c) ^ (b ^ d)
  {
  }

  lemma FeedLinear(r: bv8, s: bv8, x: bv8, y: bv8)
    ensures LinearAt(Feed, Xor, r, s, x, y)
  {
    XorPairs(r, s, x, y);
    forall x: bv8, y: bv8 ensures AdditiveAt(Clock, Xor, x, y) {
      ClockLinear(x, y);
    }
    IterateAdditive(Clock, Xor, r ^ x, s ^ y, 8);
  }

  lemma FeedZero(r: bv8, x: bv8)
    ensures Feed(r, x) == 0 <==> r == x
  {
    EightIterates(r ^ x);
    OnlyZeroToZero(r ^ x);
    XorIsZero(r, x);
  }

  lemma XorIsZero(r: bv8, x: bv8)
    ensures r ^ x == 0 <==> r == x
  {
  }

  /** The register is linear in its start value and the data together. */
  lemma RegisterLinear(c: bv8, d: bv8, data: seq<bv8>, error: seq<bv8>)
    requires |data| == |error|
    ensures Register(c ^ d, Flipped(data, error)) == Register(c, data) ^ Register(d, error)
  {
    forall r: bv8, s: bv8, x: bv8, y: bv8 ensures LinearAt(Feed, Xor, r, s, x, y) {
      FeedLinear(r, s, x, y);
    }
    FoldLinear(Feed, Xor, c, d, data, error);
  }

  /** Flip the bits of the data that are set in the error. */
  function Flipped(data: seq<bv8>, error: seq<bv8>): (r: seq<bv8>)
    requires |data| == |error|
    ensures |r| == |data|
  {
    Added(Xor, data, error)
  }

  // ---------------------------------------------------------------- valid images

  /** sprom_crc, over all but the last byte. */
  function ImageCrc(image: seq<bv8>): bv8
    requires |image| > 0
  {
    Register(0xFF, image[..|image| - 1]) ^ 0xFF
  }

  /** validate_input without --force */
  predicate IsValid(image: seq<bv8>)
    requires |image| > 0
  {
    ImageCrc(image) == image[|image| - 1]
  }

  lemma LastByte(r: bv8, x: bv8)
    ensures r ^ 0xFF == x <==> Feed(r, x) == 0x9F
  {
    EightIterates(r ^ x);
    ResidueOf(r ^ x);
    Complement(r, x);
  }

  lemma ResidueOf(x: bv8)
    ensures EightClocks(x) == 0x9F <==> x == 0xFF
  {
  }

  lemma Complement(r: bv8, x: bv8)
    ensures r ^ 0xFF == x <==> r ^ x == 0xFF
  {
  }

  /** Valid images are those whose register over all bytes, the checksum included, ends at a constant. */
  lemma ValidResidue(image: seq<bv8>)
    requires |image| > 0
    ensures IsValid(image) <==> Register(0xFF, image) == 0x9F
  {
    LastByte(Register(0xFF, image[..|image| - 1]), image[|image| - 1]);
  }

  /** Whether flipping bits of a valid image is noticed depends on the flipped bits alone. */
  lemma Detected(image: seq<bv8>, error: seq<bv8>)
    requires |image| == |error| > 0 && IsValid(image)
    ensures IsValid(Flipped(image, error)) <==> Register(0, error) == 0
  {
    ValidResidue(image);
    ValidResidue(Flipped(image, error));
    RegisterLinear(0xFF, 0, image, error);
    ResidueXor(Register(0, error));
  }

  lemma ResidueXor(e: bv8)
    ensures 0xFF ^ (0 as bv8) == 0xFF && ((0x9F ^ e == 0x9F) <==> e == 0)
  {
  }

  // ---------------------------------------------------------------- what is detected

  function Bit(x: bv8, j: nat): bool
    requires j < 8
  {
    match j
    case 0 => x & 1 != 0  case 1 => x & 2 != 0  case 2 => x & 4 != 0  case 3 => x & 8 != 0
    case 4 => x & 16 != 0  case 5 => x & 32 != 0  case 6 => x & 64 != 0  case _ => x & 128 != 0
  }

  /** Whether a byte has an odd number of ones. */
  function Odd(x: bv8): bool {
    Low(x) != Low(x >> 4)
  }

  function Low(x: bv8): bool {
    (Bit(x, 0) != Bit(x, 1)) != (Bit(x, 2) != Bit(x, 3))
  }

  function Ones(x: bv8): nat {
    Count(x, 0) + Count(x, 1) + Count(x, 2) + Count(x, 3) + Count(x, 4) + Count(x, 5) + Count(x, 6) + Count(x, 7)
  }

  function Count(x: bv8, j: nat): nat
    requires j < 8
  {
    if Bit(x, j) then 1 else 0
  }

  lemma OddCountsOnes(x: bv8)
    ensures Odd(x) <==> Ones(x) % 2 == 1
  {
    var (a, b) := (Bit(x, 0) != Bit(x, 1), Bit(x, 2) != Bit(x, 3));
    var (c, d) := (Bit(x, 4) != Bit(x, 5), Bit(x, 6) != Bit(x, 7));
    assert Odd(x) == ((a != b) != (c != d));
  }

  lemma XorLow(x: bv8, y: bv8)
    ensures (x ^ y) >> 4 == (x >> 4) ^ (y >> 4)
    ensures Low(x ^ y) == (Low(x) != Low(y))
  {
    assert ((x ^ y) & 1 != 0) == ((x & 1 != 0) != (y & 1 != 0));
    assert ((x ^ y) & 2 != 0) == ((x & 2 != 0) != (y & 2 != 0));
    assert ((x ^ y) & 4 != 0) == ((x & 4 != 0) != (y & 4 != 0));
    assert ((x ^ y) & 8 != 0) == ((x & 8 != 0) != (y & 8 != 0));
  }

  lemma OddXor(x: bv8, y: bv8)
    ensures Odd(x ^ y) == (Odd(x) != Odd(y))
  {
    XorLow(x, y);
    XorLow(x >> 4, y >> 4);
  }

  /** The polynomial has an even number of terms, so a clock never changes the parity of the register. */
  lemma ClockOdd(x: bv8)
    ensures Odd(Clock(x)) == Odd(x)
  {
  }

  lemma {:induction false} ClocksOdd(x: bv8, n: nat)
    ensures Odd(Iterate(Clock, x, n)) == Odd(x)
  {
    if n > 0 {
      ClocksOdd(x, n - 1);
      ClockOdd(Iterate(Clock, x, n - 1));
    }
  }

  lemma FeedOdd(r: bv8, x: bv8)
    ensures Odd(Feed(r, x)) == (Odd(r) != Odd(x))
  {
    ClocksOdd(r ^ x, 8);
    OddXor(r, x);
  }

  /** An odd number of flipped bits, wherever they are, is always noticed. */
  lemma OddErrorsDetected(image: seq<bv8>, error: seq<bv8>)
    requires |image| == |error| > 0 && IsValid(image) && Total(Ones, error) % 2 == 1
    ensures !IsValid(Flipped(image, error))
  {
    forall x: bv8 ensures Odd(x) <==> Ones(x) % 2 == 1 {
      OddCountsOnes(x);
    }
    OddTotal(Odd, Ones, error);
    forall r: bv8, x: bv8 ensures Odd(Feed(r, x)) == (Odd(r) != Odd(x)) {
      FeedOdd(r, x);
    }
    FoldOdd(Feed, Odd, 0, error);
    Detected(image, error);
  }

  /** Bit number pos of a sequence of bytes, lowest bits first. */
  predicate BitAt(data: seq<bv8>, pos: nat)
    requires pos < 8 * |data|
  {
    Bit(data[pos / 8], pos % 8)
  }

  /** All flipped bits are among the eight from number `from` on. */
  predicate IsBurst(error: seq<bv8>, from: nat) {
    forall pos: nat :: pos < 8 * |error| && BitAt(error, pos) ==> from <= pos < from + 8
  }

  lemma NoBits(x: bv8)
    requires forall j: nat :: j < 8 ==> !Bit(x, j)
    ensures x == 0
  {
    assert !Bit(x, 0) && !Bit(x, 1) && !Bit(x, 2) && !Bit(x, 3) && !Bit(x, 4) && !Bit(x, 5) && !Bit(x, 6) && !Bit(x, 7);
  }

  /** A byte whose s low bits are zero, followed by one with nothing above its s low bits, does not
      bring the register back to zero. */
  lemma BurstBytes(a: bv8, b: bv8, s: nat)
    requires s < 8 && (forall j: nat :: j < s ==> !Bit(a, j)) && (forall j: nat :: s <= j < 8 ==> !Bit(b, j))
    ensures EightClocks(a) == b ==> a == 0 && b == 0
  {
    assert s > 0 ==> !Bit(a, 0);
    assert s > 1 ==> !Bit(a, 1);
    assert s > 2 ==> !Bit(a, 2);
    assert s > 3 ==> !Bit(a, 3);
    assert s > 4 ==> !Bit(a, 4);
    assert s > 5 ==> !Bit(a, 5);
    assert s > 6 ==> !Bit(a, 6);
    assert s <= 0 ==> !Bit(b, 0);
    assert s <= 1 ==> !Bit(b, 1);
    assert s <= 2 ==> !Bit(b, 2);
    assert s <= 3 ==> !Bit(b, 3);
    assert s <= 4 ==> !Bit(b, 4);
    assert s <= 5 ==> !Bit(b, 5);
    assert s <= 6 ==> !Bit(b, 6);
    assert s <= 7 ==> !Bit(b, 7);
  }

  /** Where the bytes of a burst can differ from zero: at byte k from bit s on, and below bit s of the
      byte behind it. */
  lemma BurstAt(error: seq<bv8>, k: nat, s: nat, i: nat)
    requires s < 8 && IsBurst(error, 8 * k + s) && i < |error|
    ensures i != k && i != k + 1 ==> error[i] == 0
    ensures i == k ==> forall j: nat :: j < s ==> !Bit(error[i], j)
    ensures i == k + 1 ==> forall j: nat :: s <= j < 8 ==> !Bit(error[i], j)
  {
    forall j: nat | j < 8 ensures Bit(error[i], j) ==> 8 * k + s <= 8 * i + j < 8 * k + s + 8 {
      var pos := 8 * i + j;
      assert pos / 8 == i && pos % 8 == j;
      assert BitAt(error, pos) == Bit(error[i], j);
    }
    if i != k && i != k + 1 {
      NoBits(error[i]);
    }
  }

  lemma ZerosKept()
    ensures KeepsZero(Feed, 0)
  {
    forall r: bv8 ensures Feed(r, 0) == 0 <==> r == 0 {
      FeedZero(r, 0);
    }
  }

  lemma FeedOfZero(a: bv8)
    ensures Feed(0, a) == EightClocks(a)
  {
    assert 0 ^ a == a;
    EightIterates(a);
  }

  lemma RegisterAt(error: seq<bv8>, k: nat)
    requires k < |error| && forall i :: 0 <= i < |error| && i != k && i != k + 1 ==> error[i] == 0
    ensures Register(0, error) == 0
            <==> if k + 1 == |error| then error[k] == 0 else EightClocks(error[k]) == error[k + 1]
  {
    ZerosKept();
    var (before, behind) := (error[..k], error[k + 1..]);
    FoldZeros(Feed, 0, 0, before);
    assert error == before + ([error[k]] + behind);
    FoldAppend(Feed, 0, before, [error[k]] + behind);
    FoldAppend(Feed, 0, [error[k]], behind);
    FoldOne(0, error[k]);
    FeedOfZero(error[k]);
    if behind != [] {
      var (next, rest) := (error[k + 1], error[k + 2..]);
      assert behind == [next] + rest;
      FoldAppend(Feed, EightClocks(error[k]), [next], rest);
      FoldOne(EightClocks(error[k]), next);
      FoldZeros(Feed, 0, Feed(EightClocks(error[k]), next), rest);
      FeedZero(EightClocks(error[k]), next);
    } else {
      OnlyZeroToZero(error[k]);
    }
  }

  lemma FoldOne(c: bv8, x: bv8)
    ensures Register(c, [x]) == Feed(c, x)
  {
    var data := [x];
    assert data[..|data| - 1] == [];
    assert Fold(Feed, c, []) == c;
  }

  /** Any error within eight consecutive bits, wherever they are, is always noticed. */
  lemma BurstsDetected(image: seq<bv8>, error: seq<bv8>, from: nat, hit: nat)
    requires |image| == |error| > 0 && IsValid(image)
    requires IsBurst(error, from) && hit < |error| && error[hit] != 0
    ensures !IsValid(Flipped(image, error))
  {
    var (k, s) := (from / 8, from % 8);
    forall i | 0 <= i < |error| && i != k && i != k + 1 ensures error[i] == 0 {
      BurstAt(error, k, s, i);
    }
    Detected(image, error);
    if k < |error| {
      RegisterAt(error, k);
      BurstAt(error, k, s, k);
      if k + 1 < |error| {
        BurstAt(error, k, s, k + 1);
        BurstBytes(error[k], error[k + 1], s);
      }
    }
  }

  // ---------------------------------------------------------------- the register as a polynomial

  /** x^8 + x^7 + x^6 + x^4 + x^2 + 1 */
  const GENERATOR: Poly := {8, 7, 6, 4, 2, 0}

  /** A byte as a polynomial: its lowest bit is the highest coefficient. */
  function PolyOf(x: bv8): Poly {
    set e: nat | e < 8 && Coefficient(x, e)
  }

  predicate Coefficient(x: bv8, e: nat)
    requires e < 8
  {
    Bit(x, 7 - e)
  }

  /** The polynomial of all the data with eight zero bits behind it, and the start value added to its
      first byte: by Horner's rule, eight coefficients a byte. */
  function Message(c: bv8, data: seq<bv8>): Poly {
    if data == [] then PolyOf(c)
    else Shift(Plus(Message(c, data[..|data| - 1]), PolyOf(data[|data| - 1])), 8)
  }

  lemma XorBit(x: bv8, y: bv8, j: nat)
    requires j < 8
    ensures Bit(x ^ y, j) == (Bit(x, j) != Bit(y, j))
  {
    match j
    case 0 => assert ((x ^ y) & 1 != 0) == ((x & 1 != 0) != (y & 1 != 0));
    case 1 => assert ((x ^ y) & 2 != 0) == ((x & 2 != 0) != (y & 2 != 0));
    case 2 => assert ((x ^ y) & 4 != 0) == ((x & 4 != 0) != (y & 4 != 0));
    case 3 => assert ((x ^ y) & 8 != 0) == ((x & 8 != 0) != (y & 8 != 0));
    case 4 => assert ((x ^ y) & 16 != 0) == ((x & 16 != 0) != (y & 16 != 0));
    case 5 => assert ((x ^ y) & 32 != 0) == ((x & 32 != 0) != (y & 32 != 0));
    case 6 => assert ((x ^ y) & 64 != 0) == ((x & 64 != 0) != (y & 64 != 0));
    case _ => assert ((x ^ y) & 128 != 0) == ((x & 128 != 0) != (y & 128 != 0));
  }

  lemma PolyOfXor(x: bv8, y: bv8)
    ensures PolyOf(x ^ y) == Plus(PolyOf(x), PolyOf(y))
  {
    forall e: nat | e < 8 ensures e in PolyOf(x ^ y) <==> e in Plus(PolyOf(x), PolyOf(y)) {
      XorBit(x, y, 7 - e);
    }
  }

  lemma ClockBit(c: bv8, j: nat)
    requires j < 8
    ensures Bit(Clock(c), j) == ((j < 7 && Bit(c, j + 1)) != (Bit(c, 0) && j in {0, 1, 3, 5, 7}))
  {
  }

  /** A clock multiplies by x, and subtracts the generator if that reaches x^8. */
  lemma ClockPoly(c: bv8)
    ensures Shift(PolyOf(c), 1) == Plus(PolyOf(Clock(c)), if Bit(c, 0) then GENERATOR else {})
  {
    forall e: nat ensures e in Shift(PolyOf(c), 1) <==> 0 < e <= 8 && Bit(c, 8 - e) {
      InShift(PolyOf(c), 1, e);
      assert 0 < e <= 8 ==> Bit(c, 8 - e) == Coefficient(c, e - 1);
    }
    forall e: nat | e < 8
      ensures e in PolyOf(Clock(c)) <==> ((e > 0 && Bit(c, 8 - e)) != (Bit(c, 0) && e in GENERATOR))
    {
      ClockBit(c, 7 - e);
    }
  }

  lemma ClockCongruent(c: bv8)
    ensures Congruent(GENERATOR, Shift(PolyOf(c), 1), PolyOf(Clock(c)))
  {
    ClockPoly(c);
    if Bit(c, 0) {
      CongruentOne(GENERATOR, Shift(PolyOf(c), 1), PolyOf(Clock(c)));
    } else {
      assert Shift(PolyOf(c), 1) == PolyOf(Clock(c));
      CongruentSelf(GENERATOR, PolyOf(Clock(c)));
    }
  }

  lemma ClocksCongruent(c: bv8)
    ensures Congruent(GENERATOR, Shift(PolyOf(c), 8), PolyOf(Iterate(Clock, c, 8)))
  {
    forall d: bv8 ensures Congruent(GENERATOR, Shift(PolyOf(d), 1), PolyOf(Clock(d))) {
      ClockCongruent(d);
    }
    IterateCongruent(GENERATOR, PolyOf, Clock, c, 8);
  }

  /** The register is the remainder of the message divided by the generator. */
  lemma {:induction false} RegisterIsRemainder(c: bv8, data: seq<bv8>)
    ensures Congruent(GENERATOR, Message(c, data), PolyOf(Register(c, data)))
    ensures forall e :: e in PolyOf(Register(c, data)) ==> e < 8
  {
    if data == [] {
      CongruentSelf(GENERATOR, PolyOf(c));
    } else {
      var n := |data| - 1;
      var (r, x) := (Register(c, data[..n]), data[n]);
      RegisterIsRemainder(c, data[..n]);
      var sum := Plus(Message(c, data[..n]), PolyOf(x));
      CongruentPlus(GENERATOR, Message(c, data[..n]), PolyOf(r), PolyOf(x));
      PolyOfXor(r, x);
      CongruentShift(GENERATOR, sum, PolyOf(r ^ x), 8);
      ClocksCongruent(r ^ x);
      CongruentTrans(GENERATOR, Shift(sum, 8), Shift(PolyOf(r ^ x), 8), PolyOf(Feed(r, x)));
    }
  }

  lemma PolyOfInjective(x: bv8, y: bv8)
    requires PolyOf(x) == PolyOf(y)
    ensures x == y
  {
    var z := x ^ y;
    forall j: nat | j < 8 ensures !Bit(z, j) {
      XorBit(x, y, j);
      assert 7 - j in PolyOf(x) <==> Bit(x, j);
      assert 7 - j in PolyOf(y) <==> Bit(y, j);
    }
    NoBits(z);
    XorIsZero(x, y);
  }

  /** A remainder below the degree of the generator is unique: it is the register's polynomial, and no
      other byte has that one. */
  lemma RemainderIsRegister(c: bv8, data: seq<bv8>, r: Poly)
    requires Congruent(GENERATOR, Message(c, data), r) && forall e :: e in r ==> e < 8
    ensures r == PolyOf(Register(c, data)) && forall x: bv8 :: PolyOf(x) == r ==> x == Register(c, data)
  {
    RegisterIsRemainder(c, data);
    RemainderUnique(GENERATOR, 8, Message(c, data), r, PolyOf(Register(c, data)));
    forall x: bv8 | PolyOf(x) == r ensures x == Register(c, data) {
      PolyOfInjective(x, Register(c, data));
    }
  }
}
