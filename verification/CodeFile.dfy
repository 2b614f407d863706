/** Instruction words in files: the assembler's packing and the disassembler's reading. */
module CodeFile {
  import opened Wrappers
  import opened Bits
  import opened Bytes
  import opened Isa
  import opened Operands
  import opened InsnRoundTrip

  datatype Format = RawLe32 | RawBe32 | B43

  datatype ReadError = NoHeader | WrongType | WrongVersion | Unaligned | UpperBitsSet

  // ---------------------------------------------------------------- one instruction word

  /** The fields are shifted into place and or-ed into 64 bits; none of them is masked. */
  function Pack(arch: Arch, bin: Bin): (w: nat)
    ensures w < 0x1_0000_0000_0000_0000
  {
    (match arch
     case Arch5 => Shifted(bin, 12, 24, 36)
     case Arch15 => Shifted(bin, 13, 26, 39)) % 0x1_0000_0000_0000_0000
  }

  function Shifted(bin: Bin, n: nat, m: nat, k: nat): nat {
    BitOr(BitOr(BitOr(bin.c, ShiftLeft(bin.b, n)), ShiftLeft(bin.a, m)), ShiftLeft(bin.opcode, k))
  }

  function Unpack(arch: Arch, w: nat): Result<Bin, ReadError> {
    match arch
    case Arch5 =>
      if w / 0x1_0000_0000_0000 != 0 then Err(UpperBitsSet)
      else Ok(Bin(w / 0x10_0000_0000 % 0x1000, w / 0x100_0000 % 0x1000, w / 0x1000 % 0x1000, w % 0x1000))
    case Arch15 =>
      if w / 0x8_0000_0000_0000 != 0 then Err(UpperBitsSet)
      else Ok(Bin(w / 0x80_0000_0000 % 0x1000, w / 0x400_0000 % 0x2000, w / 0x2000 % 0x2000, w % 0x2000))
  }

  /** The value of fields that do not overlap. */
  function Sum(arch: Arch, bin: Bin): nat {
    match arch
    case Arch5 => bin.c + 0x1000 * (bin.b + 0x1000 * (bin.a + 0x1000 * bin.opcode))
    case Arch15 => bin.c + 0x2000 * (bin.b + 0x2000 * (bin.a + 0x2000 * bin.opcode))
  }

  lemma Shifts()
    ensures Pow2(12) == 0x1000 && Pow2(24) == 0x100_0000 && Pow2(36) == 0x10_0000_0000
    ensures Pow2(13) == 0x2000 && Pow2(26) == 0x400_0000 && Pow2(39) == 0x80_0000_0000
  {
    PowSum(12, 12);
    PowSum(24, 12);
    PowSum(13, 13);
    PowSum(26, 13);
  }

  lemma {:induction false} PowSum(m: nat, n: nat)
    ensures Pow2(m + n) == Pow2(m) * Pow2(n)
  {
    if n > 0 {
      PowSum(m, n - 1);
    }
  }

  lemma OrField(low: nat, high: nat, n: nat)
    requires low < Pow2(n)
    ensures BitOr(low, ShiftLeft(high, n)) == low + high * Pow2(n)
  {
    OrDisjoint(low, high, n);
    ShiftLeftMul(high, n);
  }

  lemma OrFields(bin: Bin, n: nat, m: nat, k: nat, p: nat, q: nat, r: nat)
    requires Pow2(n) == p && Pow2(m) == q && Pow2(k) == r
    requires bin.c < p && bin.c + bin.b * p < q && bin.c + bin.b * p + bin.a * q < r
    ensures Shifted(bin, n, m, k) == bin.c + bin.b * p + bin.a * q + bin.opcode * r
  {
    OrField(bin.c, bin.b, n);
    OrField(bin.c + bin.b * p, bin.a, m);
    OrField(bin.c + bin.b * p + bin.a * q, bin.opcode, k);
  }

  lemma SumIsSmall(arch: Arch, bin: Bin)
    requires InFormat(arch, bin)
    ensures Sum(arch, bin) % 0x1_0000_0000_0000_0000 == Sum(arch, bin)
  {
  }

  lemma NoOverlap5(bin: Bin)
    requires InFormat(Arch5, bin)
    ensures Pack(Arch5, bin) == Sum(Arch5, bin)
  {
    Shifts();
    OrFields(bin, 12, 24, 36, 0x1000, 0x100_0000, 0x10_0000_0000);
    SumIsSmall(Arch5, bin);
  }

  lemma NoOverlap15(bin: Bin)
    requires InFormat(Arch15, bin)
    ensures Pack(Arch15, bin) == Sum(Arch15, bin)
  {
    Shifts();
    OrFields(bin, 13, 26, 39, 0x2000, 0x400_0000, 0x80_0000_0000);
    SumIsSmall(Arch15, bin);
  }

  /** Fields of the format never overlap, so the or of them is their sum. */
  lemma NoOverlap(arch: Arch, bin: Bin)
    requires InFormat(arch, bin)
    ensures Pack(arch, bin) == Sum(arch, bin)
  {
    match arch {
      case Arch5 => NoOverlap5(bin);
      case Arch15 => NoOverlap15(bin);
    }
  }

  lemma Digit12(low: nat, high: nat)
    requires low < 0x1000
    ensures (low + 0x1000 * high) % 0x1000 == low && (low + 0x1000 * high) / 0x1000 == high
  {
  }

  lemma Digit13(low: nat, high: nat)
    requires low < 0x2000
    ensures (low + 0x2000 * high) % 0x2000 == low && (low + 0x2000 * high) / 0x2000 == high
  {
  }

  lemma Quotients12(w: nat)
    ensures w / 0x100_0000 == w / 0x1000 / 0x1000
    ensures w / 0x10_0000_0000 == w / 0x1000 / 0x1000 / 0x1000
    ensures w / 0x1_0000_0000_0000 == w / 0x1000 / 0x1000 / 0x1000 / 0x1000
  {
  }

  lemma Quotients13(w: nat)
    ensures w / 0x400_0000 == w / 0x2000 / 0x2000
    ensures w / 0x80_0000_0000 == w / 0x2000 / 0x2000 / 0x2000
    ensures w / 0x8_0000_0000_0000 == w / 0x2000 / 0x2000 / 0x2000 / 0x1000
  {
  }

  lemma UnpackSum(arch: Arch, bin: Bin)
    requires InFormat(arch, bin)
    ensures Unpack(arch, Sum(arch, bin)) == Ok(bin)
  {
    var w := Sum(arch, bin);
    if arch == Arch5 {
      Quotients12(w);
      Digit12(bin.a, bin.opcode);
      Digit12(bin.b, bin.a + 0x1000 * bin.opcode);
      Digit12(bin.c, bin.b + 0x1000 * (bin.a + 0x1000 * bin.opcode));
    } else {
      Quotients13(w);
      Digit13(bin.a, bin.opcode);
      Digit13(bin.b, bin.a + 0x2000 * bin.opcode);
      Digit13(bin.c, bin.b + 0x2000 * (bin.a + 0x2000 * bin.opcode));
    }
  }

  lemma SumUnpack(arch: Arch, w: nat)
    requires Unpack(arch, w).Ok?
    ensures InFormat(arch, Unpack(arch, w).value) && Sum(arch, Unpack(arch, w).value) == w
  {
    if arch == Arch5 {
      Quotients12(w);
    } else {
      Quotients13(w);
    }
  }

  /** Packing and unpacking are inverse to each other on the words of the format. */
  lemma UnpackPack(arch: Arch, bin: Bin)
    requires InFormat(arch, bin)
    ensures Unpack(arch, Pack(arch, bin)) == Ok(bin)
  {
    NoOverlap(arch, bin);
    UnpackSum(arch, bin);
  }

  lemma PackUnpack(arch: Arch, w: nat)
    requires Unpack(arch, w).Ok?
    ensures InFormat(arch, Unpack(arch, w).value) && Pack(arch, Unpack(arch, w).value) == w
  {
    SumUnpack(arch, w);
    NoOverlap(arch, Unpack(arch, w).value);
  }

  // ---------------------------------------------------------------- eight bytes

  /** Exchange the two halves of a 64-bit word. */
  function SwapHalves(w: nat): (r: nat)
    requires w < 0x1_0000_0000_0000_0000
    ensures r < 0x1_0000_0000_0000_0000
  {
    w / 0x1_0000_0000 + w % 0x1_0000_0000 * 0x1_0000_0000
  }

  /** The eight bytes of a word, most significant first. */
  function Be64(w: nat): (b: seq<byte>)
    requires w < 0x1_0000_0000_0000_0000
    ensures |b| == 8
  {
    [w / 0x100_0000_0000_0000, w / 0x1_0000_0000_0000 % 0x100, w / 0x100_0000_0000 % 0x100, w / 0x1_0000_0000 % 0x100,
     w / 0x100_0000 % 0x100, w / 0x1_0000 % 0x100, w / 0x100 % 0x100, w % 0x100]
  }

  function FromBe64(b: seq<byte>): (w: nat)
    requires |b| == 8
    ensures w < 0x1_0000_0000_0000_0000
  {
    var b0: nat, b1: nat, b2: nat, b3: nat := b[0], b[1], b[2], b[3];
    var b4: nat, b5: nat, b6: nat, b7: nat := b[4], b[5], b[6], b[7];
    b0 * 0x100_0000_0000_0000 + b1 * 0x1_0000_0000_0000 + b2 * 0x100_0000_0000 + b3 * 0x1_0000_0000
    + b4 * 0x100_0000 + b5 * 0x1_0000 + b6 * 0x100 + b7
  }

  function Backwards(b: seq<byte>): (r: seq<byte>)
    requires |b| == 8
    ensures |r| == 8
  {
    [b[7], b[6], b[5], b[4], b[3], b[2], b[1], b[0]]
  }

  /** In the big-endian formats the two 32-bit halves are stored low half first. */
  function WordBytes(format: Format, w: nat): (b: seq<byte>)
    requires w < 0x1_0000_0000_0000_0000
    ensures |b| == 8
  {
    match format
    case RawLe32 => Backwards(Be64(w))
    case _ => Be64(SwapHalves(w))
  }

  function BytesWord(format: Format, b: seq<byte>): (w: nat)
    requires |b| == 8
    ensures w < 0x1_0000_0000_0000_0000
  {
    match format
    case RawLe32 => FromBe64(Backwards(b))
    case _ => SwapHalves(FromBe64(b))
  }

  lemma Be64Halves(w: nat)
    requires w < 0x1_0000_0000_0000_0000
    ensures Be64(w) == Be32(w / 0x1_0000_0000) + Be32(w % 0x1_0000_0000)
  {
    var (hi, lo) := (w / 0x1_0000_0000, w % 0x1_0000_0000);
    HighHalf(w);
    LowHalf(hi, lo);
  }

  lemma HighHalf(w: nat)
    ensures w / 0x100_0000_0000_0000 == w / 0x1_0000_0000 / 0x100_0000
    ensures w / 0x1_0000_0000_0000 == w / 0x1_0000_0000 / 0x1_0000
    ensures w / 0x100_0000_0000 == w / 0x1_0000_0000 / 0x100
  {
  }

  lemma DropHigh(high: nat, low: nat)
    ensures (high * 0x100 + low) % 0x100 == low % 0x100
  {
  }

  lemma LowQuotients(hi: nat, lo: nat)
    requires lo < 0x1_0000_0000
    ensures (hi * 0x1_0000_0000 + lo) / 0x100_0000 == hi * 0x100 + lo / 0x100_0000
    ensures (hi * 0x1_0000_0000 + lo) / 0x1_0000 == hi * 0x1_0000 + lo / 0x1_0000
    ensures (hi * 0x1_0000_0000 + lo) / 0x100 == hi * 0x100_0000 + lo / 0x100
  {
  }

  lemma LowHalf(hi: nat, lo: nat)
    requires lo < 0x1_0000_0000
    ensures var w := hi * 0x1_0000_0000 + lo;
            && w / 0x100_0000 % 0x100 == lo / 0x100_0000
            && w / 0x1_0000 % 0x100 == lo / 0x1_0000 % 0x100
            && w / 0x100 % 0x100 == lo / 0x100 % 0x100
            && w % 0x100 == lo % 0x100
  {
    LowQuotients(hi, lo);
    DropHigh(hi, lo / 0x100_0000);
    DropHigh(hi * 0x100, lo / 0x1_0000);
    DropHigh(hi * 0x1_0000, lo / 0x100);
    DropHigh(hi * 0x100_0000, lo);
  }

  lemma FromBe64Halves(b: seq<byte>)
    requires |b| == 8
    ensures FromBe64(b) == FromBe32(b[..4]) * 0x1_0000_0000 + FromBe32(b[4..])
  {
  }

  lemma Be64Back(w: nat)
    requires w < 0x1_0000_0000_0000_0000
    ensures FromBe64(Be64(w)) == w
  {
    Be64Halves(w);
    FromBe64Halves(Be64(w));
    Be32Back(w / 0x1_0000_0000);
    Be32Back(w % 0x1_0000_0000);
    assert Be64(w)[..4] == Be32(w / 0x1_0000_0000) && Be64(w)[4..] == Be32(w % 0x1_0000_0000);
  }

  lemma FromBe64Back(b: seq<byte>)
    requires |b| == 8
    ensures Be64(FromBe64(b)) == b
  {
    var (hi, lo) := (FromBe32(b[..4]), FromBe32(b[4..]));
    FromBe64Halves(b);
    Be64Halves(FromBe64(b));
    FromBe32Back(b[..4]);
    FromBe32Back(b[4..]);
    assert (hi * 0x1_0000_0000 + lo) / 0x1_0000_0000 == hi && (hi * 0x1_0000_0000 + lo) % 0x1_0000_0000 == lo;
  }

  /** What the bytes of a word are: in the big-endian formats the low half in front of the high half, each
      most significant byte first; in the little-endian one all eight least significant byte first. */
  lemma WordLayout(format: Format, w: nat)
    requires w < 0x1_0000_0000_0000_0000
    ensures var (lo, hi) := (w % 0x1_0000_0000, w / 0x1_0000_0000);
            WordBytes(format, w) == if format == RawLe32 then Le32(lo) + Le32(hi) else Be32(lo) + Be32(hi)
  {
    var (lo, hi) := (w % 0x1_0000_0000, w / 0x1_0000_0000);
    if format == RawLe32 {
      Be64Halves(w);
      LeIsBackwards(lo);
      LeIsBackwards(hi);
    } else {
      var swapped := lo * 0x1_0000_0000 + hi;
      assert SwapHalves(w) == swapped && swapped / 0x1_0000_0000 == lo && swapped % 0x1_0000_0000 == hi;
      Be64Halves(swapped);
    }
  }

  lemma LeIsBackwards(x: nat)
    requires x < 0x1_0000_0000
    ensures Le32(x) == [Be32(x)[3], Be32(x)[2], Be32(x)[1], Be32(x)[0]]
  {
  }

  lemma SwapBack(w: nat)
    requires w < 0x1_0000_0000_0000_0000
    ensures SwapHalves(SwapHalves(w)) == w
  {
    var (low, high) := (w % 0x1_0000_0000, w / 0x1_0000_0000);
    assert SwapHalves(w) == low * 0x1_0000_0000 + high;
    assert SwapHalves(w) / 0x1_0000_0000 == low && SwapHalves(w) % 0x1_0000_0000 == high;
  }

  /** Bytes and words correspond one to one in every format. */
  lemma WordBytesBack(format: Format, w: nat)
    requires w < 0x1_0000_0000_0000_0000
    ensures BytesWord(format, WordBytes(format, w)) == w
  {
    SwapBack(w);
    Be64Back(if format == RawLe32 then w else SwapHalves(w));
    assert Backwards(Backwards(Be64(w))) == Be64(w);
  }

  lemma BytesWordBack(format: Format, b: seq<byte>)
    requires |b| == 8
    ensures WordBytes(format, BytesWord(format, b)) == b
  {
    SwapBack(FromBe64(b));
    FromBe64Back(if format == RawLe32 then Backwards(b) else b);
    assert Backwards(Backwards(b)) == b;
  }

  // ---------------------------------------------------------------- whole files

  /** struct fw_header of a microcode file; its size is in bytes. */
  function FwHeader(count: nat): (h: seq<byte>)
    ensures |h| == 8
  {
    ['u' as byte, 1, 0, 0] + Be32(8 * count % 0x1_0000_0000)
  }

  function InsnBytes(arch: Arch, format: Format, bin: Bin): (b: seq<byte>)
    ensures |b| == 8
  {
    WordBytes(format, Pack(arch, bin))
  }

  function InsnAt(arch: Arch, format: Format, b: seq<byte>): Result<Bin, ReadError> {
    if |b| != 8 then Err(Unaligned) else Unpack(arch, BytesWord(format, b))
  }

  /** Reading undoes writing on the fields of the format, and writing undoes all reading. */
  lemma InsnBack(arch: Arch, format: Format, bin: Bin)
    requires InFormat(arch, bin)
    ensures InsnAt(arch, format, InsnBytes(arch, format, bin)) == Ok(bin)
  {
    WordBytesBack(format, Pack(arch, bin));
    UnpackPack(arch, bin);
  }

  lemma BytesBack(arch: Arch, format: Format, b: seq<byte>)
    requires InsnAt(arch, format, b).Ok?
    ensures |b| == 8 && InFormat(arch, InsnAt(arch, format, b).value)
    ensures InsnBytes(arch, format, InsnAt(arch, format, b).value) == b
  {
    PackUnpack(arch, BytesWord(format, b));
    BytesWordBack(format, b);
  }

  /** The bytes that `write` gives for the instructions, one after the other. */
  function Payload(write: Bin -> seq<byte>, code: seq<Bin>): seq<byte> {
    if code == [] then [] else Payload(write, code[..|code| - 1]) + write(code[|code| - 1])
  }

  function FwHeaderOf(format: Format, count: nat): seq<byte> {
    match format
    case B43 => FwHeader(count)
    case _ => []
  }

  function FileOf(arch: Arch, format: Format, code: seq<Bin>): seq<byte> {
    FwHeaderOf(format, |code|) + Payload(bin => InsnBytes(arch, format, bin), code)
  }

  /** The next eight bytes, or what is left. */
  function Chunk(data: seq<byte>, pos: nat): seq<byte>
    requires pos <= |data|
  {
    if |data| - pos < 8 then data[pos..] else data[pos..pos + 8]
  }

  /** What `read` makes of the data, eight bytes at a time. */
  function ReadFrom(read: seq<byte> -> Result<Bin, ReadError>, data: seq<byte>, pos: nat): Result<seq<Bin>, ReadError>
    requires pos <= |data|
    decreases |data| - pos
  {
    if pos == |data| then Ok([])
    else if |data| - pos < 8 then Err(Unaligned)
    else
      var bin :- read(Chunk(data, pos));
      var rest :- ReadFrom(read, data, pos + 8);
      Ok([bin] + rest)
  }

  function ReadPayload(arch: Arch, format: Format, data: seq<byte>): Result<seq<Bin>, ReadError> {
    ReadFrom(b => InsnAt(arch, format, b), data, 0)
  }

  /** The type and the version of the header are looked at, its size is not. */
  function ReadFile(arch: Arch, format: Format, file: seq<byte>): Result<seq<Bin>, ReadError> {
    match format
    case B43 =>
      if |file| < 8 then Err(NoHeader)
      else if file[0] != 'u' as byte then Err(WrongType)
      else if file[1] != 1 then Err(WrongVersion)
      else ReadPayload(arch, format, file[8..])
    case _ => ReadPayload(arch, format, file)
  }

  // ---------------------------------------------------------------- the bytes of a file

  /** The eight bytes of a word stand at this place: in the big-endian formats the low half in front of the
      high half, and everything least significant first in the little-endian one. */
  predicate WordStands(format: Format, file: seq<byte>, at: nat, w: nat)
    requires w < 0x1_0000_0000_0000_0000
  {
    var (lo, hi) := (w % 0x1_0000_0000, w / 0x1_0000_0000);
    && at + 8 <= |file|
    && file[at..at + 4] == (if format == RawLe32 then Le32(lo) else Be32(lo))
    && file[at + 4..at + 8] == if format == RawLe32 then Le32(hi) else Be32(hi)
  }

  /** A header says what it is, and the number of bytes behind it, most significant byte first. */
  predicate HeaderStands(file: seq<byte>) {
    && |file| >= 8 && file[..4] == ['u' as byte, 1, 0, 0]
    && var b4: nat, b5: nat, b6: nat, b7: nat := file[4], file[5], file[6], file[7];
       b4 * 0x100_0000 + b5 * 0x1_0000 + b6 * 0x100 + b7 == (|file| - 8) % 0x1_0000_0000
  }

  function HeaderSize(format: Format): nat {
    if format == B43 then 8 else 0
  }

  /** A file is its header, if its format has one, and the words of its instructions in order. */
  predicate IsLaidOut(arch: Arch, format: Format, code: seq<Bin>, file: seq<byte>) {
    && |file| == HeaderSize(format) + 8 * |code|
    && (format == B43 ==> HeaderStands(file))
    && forall k :: 0 <= k < |code| ==> WordStands(format, file, HeaderSize(format) + 8 * k, Pack(arch, code[k]))
  }

  lemma SliceBehind(header: seq<byte>, data: seq<byte>, at: nat)
    requires at + 8 <= |data|
    ensures (header + data)[|header| + at..|header| + at + 8] == Chunk(data, at)
  {
  }

  lemma StandsFrom(format: Format, file: seq<byte>, at: nat, w: nat)
    requires w < 0x1_0000_0000_0000_0000 && at + 8 <= |file| && file[at..at + 8] == WordBytes(format, w)
    ensures WordStands(format, file, at, w)
  {
    var (lo, hi) := (w % 0x1_0000_0000, w / 0x1_0000_0000);
    WordLayout(format, w);
    if format == RawLe32 {
      TwoHalves(file, at, Le32(lo), Le32(hi));
    } else {
      TwoHalves(file, at, Be32(lo), Be32(hi));
    }
  }

  lemma TwoHalves(file: seq<byte>, at: nat, x: seq<byte>, y: seq<byte>)
    requires |x| == |y| == 4 && at + 8 <= |file| && file[at..at + 8] == x + y
    ensures file[at..at + 4] == x && file[at + 4..at + 8] == y
  {
    assert file[at..at + 4] == file[at..at + 8][..4] && file[at + 4..at + 8] == file[at..at + 8][4..];
  }

  lemma InsnStands(arch: Arch, format: Format, file: seq<byte>, at: nat, bin: Bin)
    requires at + 8 <= |file| && file[at..at + 8] == InsnBytes(arch, format, bin)
    ensures WordStands(format, file, at, Pack(arch, bin))
  {
    StandsFrom(format, file, at, Pack(arch, bin));
  }

  lemma WordBehind(header: seq<byte>, write: Bin -> seq<byte>, code: seq<Bin>, k: nat)
    requires k < |code| && forall bin :: |write(bin)| == 8
    ensures var file, at := header + Payload(write, code), |header| + 8 * k;
            at + 8 <= |file| && file[at..at + 8] == write(code[k])
  {
    PayloadAt(write, code, k);
    SliceBehind(header, Payload(write, code), 8 * k);
  }

  /** The bytes of instruction k stand behind the header and the instructions in front of it. */
  lemma FileWord(arch: Arch, format: Format, code: seq<Bin>, k: nat)
    requires k < |code|
    ensures WordStands(format, FileOf(arch, format, code), HeaderSize(format) + 8 * k, Pack(arch, code[k]))
  {
    WordBehind(FwHeaderOf(format, |code|), bin => InsnBytes(arch, format, bin), code, k);
    InsnStands(arch, format, FileOf(arch, format, code), HeaderSize(format) + 8 * k, code[k]);
  }

  lemma FileLayout(arch: Arch, format: Format, code: seq<Bin>)
    ensures IsLaidOut(arch, format, code, FileOf(arch, format, code))
  {
    PayloadLength(bin => InsnBytes(arch, format, bin), code);
    forall k | 0 <= k < |code|
      ensures WordStands(format, FileOf(arch, format, code), HeaderSize(format) + 8 * k, Pack(arch, code[k]))
    {
      FileWord(arch, format, code, k);
    }
    if format == B43 {
      HeaderLayout(FileOf(arch, format, code), |code|);
    }
  }

  lemma HeaderLayout(file: seq<byte>, count: nat)
    requires |file| == 8 + 8 * count && file[..8] == FwHeader(count)
    ensures HeaderStands(file)
  {
    var size := 8 * count % 0x1_0000_0000;
    Be32Back(size);
    var head := file[..8];
    assert head[..4] == file[..4] && head[4..] == Be32(size);
    assert file[4] == head[4] && file[5] == head[5] && file[6] == head[6] && file[7] == head[7];
  }

  /** The bytes of a nap on architecture 5. */
  lemma NapBytes(nap: Bin)
    requires nap == Bin(0x001, 0xBC0, 0xBC0, 0)
    ensures InsnBytes(Arch5, B43, nap) == [0xC0, 0xBC, 0x00, 0x00, 0x00, 0x00, 0x00, 0x1B]
  {
    NoOverlap(Arch5, nap);
    NapWord(Sum(Arch5, nap));
  }

  lemma NapWord(w: nat)
    requires w == 0x1B_C0BC_0000
    ensures WordBytes(B43, w) == [0xC0, 0xBC, 0x00, 0x00, 0x00, 0x00, 0x00, 0x1B]
  {
    var (lo, hi) := (w % 0x1_0000_0000, w / 0x1_0000_0000);
    assert lo == 0xC0BC_0000 && hi == 0x1B;
    WordLayout(B43, w);
  }

  // ---------------------------------------------------------------- reading what was written

  lemma {:induction false} PayloadLength(write: Bin -> seq<byte>, code: seq<Bin>)
    requires forall bin :: |write(bin)| == 8
    ensures |Payload(write, code)| == 8 * |code|
  {
    if code != [] {
      PayloadLength(write, code[..|code| - 1]);
    }
  }

  /** The bytes of instruction k. */
  lemma {:induction false} PayloadAt(write: Bin -> seq<byte>, code: seq<Bin>, k: nat)
    requires k < |code| && forall bin :: |write(bin)| == 8
    ensures |Payload(write, code)| == 8 * |code| && Chunk(Payload(write, code), 8 * k) == write(code[k])
  {
    var n := |code| - 1;
    var (front, last) := (Payload(write, code[..n]), write(code[n]));
    PayloadLength(write, code[..n]);
    if k < n {
      PayloadAt(write, code[..n], k);
      assert Chunk(front + last, 8 * k) == Chunk(front, 8 * k);
    } else {
      assert Chunk(front + last, 8 * n) == last;
    }
  }

  lemma {:induction false} PayloadIs(write: Bin -> seq<byte>, code: seq<Bin>, data: seq<byte>)
    requires |data| == 8 * |code| && forall bin :: |write(bin)| == 8
    requires forall k :: 0 <= k < |code| ==> Chunk(data, 8 * k) == write(code[k])
    ensures Payload(write, code) == data
  {
    if code != [] {
      var n := |code| - 1;
      var front := data[..8 * n];
      forall k | 0 <= k < n ensures Chunk(front, 8 * k) == write(code[..n][k]) {
        assert Chunk(data, 8 * k) == Chunk(front, 8 * k);
      }
      PayloadIs(write, code[..n], front);
      assert data == front + Chunk(data, 8 * n);
    }
  }

  /** Reading data whose instructions are those of the code. */
  lemma {:induction false} ReadCode(read: seq<byte> -> Result<Bin, ReadError>, data: seq<byte>, code: seq<Bin>, k: nat)
    requires |data| == 8 * |code| && k <= |code|
    requires forall i :: 0 <= i < |code| ==> read(Chunk(data, 8 * i)) == Ok(code[i])
    ensures ReadFrom(read, data, 8 * k) == Ok(code[k..])
    decreases |code| - k
  {
    if k < |code| {
      ReadCode(read, data, code, k + 1);
      assert code[k..] == [code[k]] + code[k + 1..];
    }
  }

  /** Emitted code reads back, whatever the format. */
  lemma ReadEmitted(arch: Arch, format: Format, code: seq<Bin>)
    requires forall i :: 0 <= i < |code| ==> InFormat(arch, code[i])
    ensures ReadFile(arch, format, FileOf(arch, format, code)) == Ok(code)
  {
    PayloadReads(arch, format, code);
    var (header, data) := (FwHeaderOf(format, |code|), Payload(bin => InsnBytes(arch, format, bin), code));
    assert (header + data)[|header|..] == data;
  }

  lemma PayloadReads(arch: Arch, format: Format, code: seq<Bin>)
    requires forall i :: 0 <= i < |code| ==> InFormat(arch, code[i])
    ensures ReadPayload(arch, format, Payload(bin => InsnBytes(arch, format, bin), code)) == Ok(code)
  {
    forall i | 0 <= i < |code| ensures InsnAt(arch, format, InsnBytes(arch, format, code[i])) == Ok(code[i]) {
      InsnBack(arch, format, code[i]);
    }
    WrittenReads(b => InsnAt(arch, format, b), bin => InsnBytes(arch, format, bin), code);
  }

  /** Reading instruction by instruction undoes writing instruction by instruction. */
  lemma WrittenReads(read: seq<byte> -> Result<Bin, ReadError>, write: Bin -> seq<byte>, code: seq<Bin>)
    requires forall bin :: |write(bin)| == 8
    requires forall i :: 0 <= i < |code| ==> read(write(code[i])) == Ok(code[i])
    ensures ReadFrom(read, Payload(write, code), 0) == Ok(code)
  {
    var data := Payload(write, code);
    PayloadLength(write, code);
    forall i | 0 <= i < |code| ensures read(Chunk(data, 8 * i)) == Ok(code[i]) {
      PayloadAt(write, code, i);
    }
    ReadCode(read, data, code, 0);
    assert code[0..] == code;
  }

  /** Whatever is read has been read instruction by instruction. */
  lemma {:induction false} ReadAt(read: seq<byte> -> Result<Bin, ReadError>, data: seq<byte>, pos: nat, k: nat)
    requires pos <= |data| && ReadFrom(read, data, pos).Ok?
    ensures |data| - pos == 8 * |ReadFrom(read, data, pos).value|
    ensures k < |ReadFrom(read, data, pos).value| ==>
              read(Chunk(data, pos + 8 * k)) == Ok(ReadFrom(read, data, pos).value[k])
    decreases |data| - pos
  {
    if pos < |data| {
      ReadAt(read, data, pos + 8, if k > 0 then k - 1 else 0);
    }
  }

  lemma ChunkIsWritten(read: seq<byte> -> Result<Bin, ReadError>, write: Bin -> seq<byte>, data: seq<byte>, k: nat)
    requires forall b :: read(b).Ok? ==> write(read(b).value) == b
    requires ReadFrom(read, data, 0).Ok? && k < |ReadFrom(read, data, 0).value| && 8 * k <= |data|
    ensures Chunk(data, 8 * k) == write(ReadFrom(read, data, 0).value[k])
  {
    ReadAt(read, data, 0, k);
    assert read(Chunk(data, 0 + 8 * k)).Ok?;
  }

  lemma ReadIsWritten(read: seq<byte> -> Result<Bin, ReadError>, write: Bin -> seq<byte>, data: seq<byte>)
    requires forall bin :: |write(bin)| == 8
    requires forall b :: read(b).Ok? ==> write(read(b).value) == b
    requires ReadFrom(read, data, 0).Ok?
    ensures Payload(write, ReadFrom(read, data, 0).value) == data
  {
    var code := ReadFrom(read, data, 0).value;
    ReadAt(read, data, 0, 0);
    forall k | 0 <= k < |code| ensures Chunk(data, 8 * k) == write(code[k]) {
      ChunkIsWritten(read, write, data, k);
    }
    PayloadIs(write, code, data);
  }

  lemma ReadFits(arch: Arch, format: Format, data: seq<byte>, k: nat)
    requires ReadPayload(arch, format, data).Ok? && k < |ReadPayload(arch, format, data).value|
    ensures InFormat(arch, ReadPayload(arch, format, data).value[k])
  {
    ReadAt(b => InsnAt(arch, format, b), data, 0, k);
    BytesBack(arch, format, Chunk(data, 8 * k));
  }

  lemma ReadBytes(arch: Arch, format: Format, data: seq<byte>)
    requires ReadPayload(arch, format, data).Ok?
    ensures Payload(bin => InsnBytes(arch, format, bin), ReadPayload(arch, format, data).value) == data
  {
    forall b: seq<byte> | InsnAt(arch, format, b).Ok?
      ensures InsnBytes(arch, format, InsnAt(arch, format, b).value) == b
    {
      BytesBack(arch, format, b);
    }
    ReadIsWritten(b => InsnAt(arch, format, b), bin => InsnBytes(arch, format, bin), data);
  }

  /** Data that reads is the payload of the code it reads as. */
  lemma ReadsPayload(arch: Arch, format: Format, data: seq<byte>)
    requires ReadPayload(arch, format, data).Ok?
    ensures forall k :: 0 <= k < |ReadPayload(arch, format, data).value| ==>
              InFormat(arch, ReadPayload(arch, format, data).value[k])
    ensures Payload(bin => InsnBytes(arch, format, bin), ReadPayload(arch, format, data).value) == data
  {
    ReadBytes(arch, format, data);
    forall k | 0 <= k < |ReadPayload(arch, format, data).value|
      ensures InFormat(arch, ReadPayload(arch, format, data).value[k])
    {
      ReadFits(arch, format, data, k);
    }
  }

  /** A file that reads is the file of its code, except that the header may hold another size and
      other padding. */
  lemma EmitRead(arch: Arch, format: Format, file: seq<byte>)
    requires ReadFile(arch, format, file).Ok?
    ensures var code := ReadFile(arch, format, file).value;
            && (forall k :: 0 <= k < |code| ==> InFormat(arch, code[k]))
            && (format == B43 ==> |file| >= 8)
            && (FileOf(arch, format, code) == file <==> (format == B43 ==> file[..8] == FwHeader(|code|)))
  {
    var code := ReadFile(arch, format, file).value;
    if format == B43 {
      ReadsPayload(arch, format, file[8..]);
      assert file == file[..8] + file[8..];
      assert FileOf(arch, format, code)[..8] == FwHeader(|code|);
    } else {
      ReadsPayload(arch, format, file);
      assert [] + file == file;
    }
  }
}
