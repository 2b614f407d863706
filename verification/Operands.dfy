/** Operand bit encodings: the assembler's generate_*_operand and the disassembler's disasm_std_operand. */
module Operands {
  import opened Wrappers
  import opened Bits
  import opened Isa

  datatype AsmError =
    | RegisterTooBig | ExtensionTooBig | ConditionTooBig | MultipleSpr | MultipleMem | MissingOperand
    | WrongArch | LongMov | NotContiguous | BadOperand
    | SyntaxError | StoreImmediate
    | MultipleArch | UnsupportedArch | NoArch | MultipleStart
    | UnknownLabel | AmbiguousLabel | BadStart

  /** What the assembler keeps for an operand until labels are resolved. */
  datatype OutOperand = Normal(value: word) | LabelRef(name: string, dir: Direction) | Resolved(value: word)

  // ---------------------------------------------------------------- encoding

  /** At most 16 bits wide, or the sign extension of a 16-bit value. */
  predicate IsPossibleImm(imm: word) {
    var high := imm / 0x1_0000;
    if imm / 0x8000 % 2 == 1 then high == 0xFFFF || high == 0 else high == 0
  }

  /** All bits above the immediate field, 10 bits on arch 5 and 11 on arch 15, equal its sign bit. */
  predicate SignBitsAgree(arch: Arch, low: word)
    requires low < 0x1_0000
  {
    match arch
    case Arch5 => if low / 0x200 % 2 == 1 then low / 0x400 == 0x3F else low / 0x400 == 0
    case Arch15 => if low / 0x400 % 2 == 1 then low / 0x800 == 0x1F else low / 0x800 == 0
  }

  predicate IsValidImm(arch: Arch, imm: word) {
    IsPossibleImm(imm) && SignBitsAgree(arch, imm % 0x1_0000)
  }

  function ImmBase(arch: Arch): word {
    match arch case Arch5 => 0xC00 case Arch15 => 0x1800
  }

  function EncodeImm(arch: Arch, imm: word): word {
    match arch case Arch5 => 0xC00 + imm % 0x400 case Arch15 => 0x1800 + imm % 0x800
  }

  /** Register bases are given for arch 5; on arch 15 they move up by one bit. */
  function RegBase(arch: Arch, base: word): word
    requires base < 0x1000
  {
    match arch case Arch5 => base case Arch15 => 2 * base
  }

  function EncodeReg(arch: Arch, kind: RegKind, nr: word): Result<word, AsmError> {
    match kind
    case Gpr => if nr >= 0x40 then Err(RegisterTooBig) else Ok(RegBase(arch, 0xBC0) + nr)
    case Spr => if nr >= 0x200 then Err(RegisterTooBig) else Ok(RegBase(arch, 0x800) + nr)
    case Offr => if nr >= 0x8 then Err(RegisterTooBig) else Ok(RegBase(arch, 0x860) + nr)
  }

  function EncodeDirect(arch: Arch, offset: word): word {
    match arch case Arch5 => offset % 0x800 case Arch15 => offset % 0x1000
  }

  function EncodeIndirect(arch: Arch, offset: word, offr: word): Result<word, AsmError> {
    if offr > 6 then Err(RegisterTooBig)
    else match arch
      case Arch5 => Ok(0xA00 + offr * 0x40 + offset % 0x40)
      case Arch15 => Ok(0x1400 + offr * 0x80 + offset % 0x80)
  }

  function GenerateOperand(arch: Arch, oper: Operand): (r: Result<OutOperand, AsmError>)
    ensures r.Ok? ==> !r.value.Resolved?
  {
    match oper
    case Imm(imm) => Ok(Normal(EncodeImm(arch, imm)))
    case Reg(kind, nr) => var v :- EncodeReg(arch, kind, nr); Ok(Normal(v))
    case Direct(offset) => Ok(Normal(EncodeDirect(arch, offset)))
    case Indirect(offset, offr) => var v :- EncodeIndirect(arch, offset, offr); Ok(Normal(v))
    case Ref(name, dir) => Ok(LabelRef(name, dir))
    case Raw(raw) => Ok(Normal(raw))
    case LinkReg(_) => Err(BadOperand)
  }

  // ---------------------------------------------------------------- decoding

  /** Operand fields are 12 bits wide on arch 5 and 13 bits on arch 15. */
  predicate InField(arch: Arch, w: word) {
    match arch case Arch5 => w < 0x1000 case Arch15 => w < 0x2000
  }

  /** The immediate, sign extended to 16 bits. */
  function DecodeImm(arch: Arch, w: word): word {
    match arch
    case Arch5 => var low := w % 0x400; if low / 0x200 % 2 == 1 then 0xFC00 + low else low
    case Arch15 => var low := w % 0x800; if low / 0x400 % 2 == 1 then 0xF800 + low else low
  }

  /** disasm_std_operand, mask by mask; on arch 15 every mask moves up by one bit. */
  function DecodeOperand(arch: Arch, w: word): (o: Operand)
    ensures !o.LinkReg? && !o.Ref?
  {
    match arch
    case Arch5 =>
      if w / 0x800 % 2 == 0 then Direct(w)
      else if w / 0x400 % 4 == 3 then Imm(DecodeImm(arch, w))
      else if w / 0x40 % 0x40 == 0x2F then Reg(Gpr, w % 0x40)
      else if w / 0x200 % 8 == 4 then Reg(Spr, w % 0x200)
      else if w / 0x200 % 8 == 5 then Indirect(w % 0x40, w / 0x40 % 8)
      else Raw(w)
    case Arch15 =>
      if w / 0x1000 % 2 == 0 then Direct(w)
      else if w / 0x800 % 4 == 3 then Imm(DecodeImm(arch, w))
      else if w / 0x80 % 0x40 == 0x2F then Reg(Gpr, w % 0x80)
      else if w / 0x400 % 8 == 4 then Reg(Spr, w % 0x800)
      else if w / 0x400 % 8 == 5 then Indirect(w % 0x80, w / 0x80 % 8)
      else Raw(w)
  }

  /** The fields the assembler can produce from register syntax: arch 15 has 128 general purpose and
      1024 special purpose register codes, of which it accepts 64 and 512. */
  predicate Encodable(arch: Arch, w: word) {
    arch == Arch15 ==> !(0x17C0 <= w < 0x1800) && !(0x1200 <= w < 0x1400)
  }

  /** Decoding then encoding gives the field back exactly for the encodable fields; on the others
      the assembler stops, because its register checks are narrower than the decoder's masks.
      Nothing is ever decoded to a raw operand: the five operand classes cover the whole field. */
  lemma DecodeEncode(arch: Arch, w: word)
    requires InField(arch, w)
    ensures GenerateOperand(arch, DecodeOperand(arch, w))
         == if Encodable(arch, w) then Ok(Normal(w)) else Err(RegisterTooBig)
    ensures var o := DecodeOperand(arch, w); o.Direct? || o.Imm? || o.Reg? || o.Indirect?
  {
    if arch == Arch5 { DecodeEncode5(w); } else { DecodeEncode15(w); }
  }

  /** The masks of arch 5 cut the field into ranges. */
  lemma Ranges5(w: word)
    requires w < 0x1000
    ensures DecodeOperand(Arch5, w) ==
      if w < 0x800 then Direct(w)
      else if w < 0xA00 then Reg(Spr, w - 0x800)
      else if w < 0xBC0 then Indirect(w % 0x40, (w - 0xA00) / 0x40)
      else if w < 0xC00 then Reg(Gpr, w - 0xBC0)
      else Imm(DecodeImm(Arch5, w))
  {
  }

  lemma Ranges15(w: word)
    requires w < 0x2000
    ensures DecodeOperand(Arch15, w) ==
      if w < 0x1000 then Direct(w)
      else if w < 0x1400 then Reg(Spr, w - 0x1000)
      else if w < 0x1780 then Indirect(w % 0x80, (w - 0x1400) / 0x80)
      else if w < 0x1800 then Reg(Gpr, w - 0x1780)
      else Imm(DecodeImm(Arch15, w))
  {
  }

  lemma ImmFieldBack(arch: Arch, w: word)
    requires if arch == Arch5 then 0xC00 <= w < 0x1000 else 0x1800 <= w < 0x2000
    ensures EncodeImm(arch, DecodeImm(arch, w)) == w
  {
    if arch == Arch5 {
      assert w % 0x400 == w - 0xC00;
    } else {
      assert w % 0x800 == w - 0x1800;
    }
  }

  lemma DecodeEncode5(w: word)
    requires w < 0x1000
    ensures GenerateOperand(Arch5, DecodeOperand(Arch5, w)) == Ok(Normal(w)) && !DecodeOperand(Arch5, w).Raw?
  {
    Ranges5(w);
    if w >= 0xC00 {
      ImmFieldBack(Arch5, w);
    } else if 0xA00 <= w < 0xBC0 {
      assert 0xA00 + (w - 0xA00) / 0x40 * 0x40 + w % 0x40 == w;
    }
  }

  lemma DecodeEncode15(w: word)
    requires w < 0x2000
    ensures GenerateOperand(Arch15, DecodeOperand(Arch15, w))
         == if Encodable(Arch15, w) then Ok(Normal(w)) else Err(RegisterTooBig)
    ensures !DecodeOperand(Arch15, w).Raw?
  {
    Ranges15(w);
    if w >= 0x1800 {
      ImmFieldBack(Arch15, w);
    } else if 0x1400 <= w < 0x1780 {
      assert 0x1400 + (w - 0x1400) / 0x80 * 0x80 + w % 0x80 == w;
    }
  }

  /** Operands that the assembler encodes without truncation and that the disassembler can name. */
  predicate Nameable(arch: Arch, o: Operand) {
    match o
    case Imm(v) => v < 0x1_0000 && IsValidImm(arch, v)
    case Reg(Gpr, nr) => nr < 0x40
    case Reg(Spr, nr) => nr < 0x200
    case Direct(off) => if arch == Arch5 then off < 0x800 else off < 0x1000
    case Indirect(off, r) => (if arch == Arch5 then off < 0x40 else off < 0x80) && r <= 6
    case _ => false
  }

  /** Encoding then decoding names the same operand, so distinct operands get distinct codes. */
  lemma EncodeDecode(arch: Arch, o: Operand)
    requires Nameable(arch, o)
    ensures NamedBack(arch, o)
  {
    match arch {
      case Arch5 => EncodeDecode5(o);
      case Arch15 => EncodeDecode15(o);
    }
  }

  predicate NamedBack(arch: Arch, o: Operand) {
    var r := GenerateOperand(arch, o);
    r.Ok? && r.value.Normal? && InField(arch, r.value.value) && DecodeOperand(arch, r.value.value) == o
  }

  lemma ImmBack5(v: word)
    requires v < 0x1_0000 && IsValidImm(Arch5, v)
    ensures NamedBack(Arch5, Imm(v))
  {
    ValidImm(Arch5, v);
    Ranges5(EncodeImm(Arch5, v));
  }

  lemma IndirectBack5(off: word, r: word)
    requires off < 0x40 && r <= 6
    ensures NamedBack(Arch5, Indirect(off, r))
  {
    var w := 0xA00 + r * 0x40 + off;
    Ranges5(w);
    assert (w - 0xA00) / 0x40 == r && w % 0x40 == off;
  }

  lemma ImmBack15(v: word)
    requires v < 0x1_0000 && IsValidImm(Arch15, v)
    ensures NamedBack(Arch15, Imm(v))
  {
    ValidImm(Arch15, v);
    Ranges15(EncodeImm(Arch15, v));
  }

  lemma IndirectBack15(off: word, r: word)
    requires off < 0x80 && r <= 6
    ensures NamedBack(Arch15, Indirect(off, r))
  {
    var w := 0x1400 + r * 0x80 + off;
    Ranges15(w);
    assert (w - 0x1400) / 0x80 == r && w % 0x80 == off;
  }

  lemma EncodeDecode5(o: Operand)
    requires Nameable(Arch5, o)
    ensures NamedBack(Arch5, o)
  {
    match o
    case Imm(v) => ImmBack5(v);
    case Reg(Gpr, nr) => Ranges5(0xBC0 + nr);
    case Reg(Spr, nr) => Ranges5(0x800 + nr);
    case Direct(off) => Ranges5(off);
    case Indirect(off, r) => IndirectBack5(off, r);
  }

  lemma EncodeDecode15(o: Operand)
    requires Nameable(Arch15, o)
    ensures NamedBack(Arch15, o)
  {
    match o
    case Imm(v) => ImmBack15(v);
    case Reg(Gpr, nr) => Ranges15(0x1780 + nr);
    case Reg(Spr, nr) => Ranges15(0x1000 + nr);
    case Direct(off) => Ranges15(off);
    case Indirect(off, r) => IndirectBack15(off, r);
  }

  /** What is left of a number that is too long: its low bits, with the sign of an immediate. */
  function CutOff(arch: Arch, o: Operand): Operand {
    match o
    case Imm(imm) =>
      var size := if arch == Arch5 then 0x400 else 0x800;
      var low := imm % size;
      Imm(if low < size / 2 then low else 0x1_0000 - size + low)
    case Direct(offset) => Direct(offset % if arch == Arch5 then 0x800 else 0x1000)
    case Indirect(offset, offr) => Indirect(offset % if arch == Arch5 then 0x40 else 0x80, offr)
    case _ => o
  }

  lemma CutImm(arch: Arch, imm: word)
    ensures var cut := CutOff(arch, Imm(imm)).imm;
            cut < 0x1_0000 && EncodeImm(arch, cut) == EncodeImm(arch, imm) && IsValidImm(arch, cut)
  {
    ValidImm(arch, CutOff(arch, Imm(imm)).imm);
  }

  /** Immediates and memory operands are encoded whatever their numbers are, offset registers above 6
      excepted; a number that is too long is cut off, and what is left is named back. */
  lemma TooLong(arch: Arch, o: Operand)
    requires o.Imm? || o.Direct? || o.Indirect?
    ensures var cut := CutOff(arch, o);
            && GenerateOperand(arch, o) == GenerateOperand(arch, cut)
            && (GenerateOperand(arch, o).Ok? <==> o.Indirect? ==> o.offr <= 6)
            && (GenerateOperand(arch, o).Ok? ==> NamedBack(arch, cut))
  {
    CutSame(arch, o);
    if GenerateOperand(arch, o).Ok? {
      EncodeDecode(arch, CutOff(arch, o));
    }
  }

  lemma CutSame(arch: Arch, o: Operand)
    requires o.Imm? || o.Direct? || o.Indirect?
    ensures GenerateOperand(arch, o) == GenerateOperand(arch, CutOff(arch, o))
    ensures GenerateOperand(arch, o).Ok? <==> o.Indirect? ==> o.offr <= 6
    ensures GenerateOperand(arch, o).Ok? ==> Nameable(arch, CutOff(arch, o))
  {
    if o.Imm? {
      CutImm(arch, o.imm);
    } else if o.Direct? {
      CutTwice(o.offset, if arch == Arch5 then 0x800 else 0x1000);
    } else {
      CutTwice(o.offset, if arch == Arch5 then 0x40 else 0x80);
    }
  }

  lemma CutTwice(n: nat, size: nat)
    requires size > 0
    ensures n % size % size == n % size < size
  {
  }

  /** is_valid_imm accepts exactly the values of at most 16 bits (or sign extensions of them) whose
      low 16 bits survive encoding: sign extending the immediate field gives them back. */
  lemma ValidImm(arch: Arch, imm: word)
    ensures IsPossibleImm(imm) <==> imm < 0x1_0000 || imm >= 0xFFFF_8000
    ensures IsValidImm(arch, imm) <==>
            (imm < 0x1_0000 || imm >= 0xFFFF_8000) && DecodeImm(arch, EncodeImm(arch, imm)) == imm % 0x1_0000
  {
    PossibleImm(imm);
    if arch == Arch5 { SignExtension5(imm); } else { SignExtension15(imm); }
  }

  lemma PossibleImm(imm: word)
    ensures IsPossibleImm(imm) <==> imm < 0x1_0000 || imm >= 0xFFFF_8000
  {
  }

  lemma SignExtension5(imm: word)
    ensures SignBitsAgree(Arch5, imm % 0x1_0000) <==> DecodeImm(Arch5, EncodeImm(Arch5, imm)) == imm % 0x1_0000
  {
    var low := imm % 0x1_0000;
    assert (0xC00 + imm % 0x400) % 0x400 == imm % 0x400 == low % 0x400;
  }

  lemma SignExtension15(imm: word)
    ensures SignBitsAgree(Arch15, imm % 0x1_0000) <==> DecodeImm(Arch15, EncodeImm(Arch15, imm)) == imm % 0x1_0000
  {
    var low := imm % 0x1_0000;
    assert (0x1800 + imm % 0x800) % 0x800 == imm % 0x800 == low % 0x800;
  }

  /** An offset register has the code of a special purpose register, 0x60 onwards on arch 5 and 0xC0
      onwards on arch 15, so the disassembler shows it as that. */
  lemma OffsetRegisters(arch: Arch, nr: word)
    ensures var r := EncodeReg(arch, Offr, nr);
            && (r.Ok? <==> nr < 8)
            && (r.Ok? ==> DecodeOperand(arch, r.value) == Reg(Spr, (if arch == Arch5 then 0x60 else 0xC0) + nr))
  {
    if nr < 8 {
      if arch == Arch5 {
        Ranges5(0x860 + nr);
      } else {
        Ranges15(0x10C0 + nr);
      }
    }
  }
}
