/** The b43 microcode instruction set: the vocabulary shared by assembler and disassembler. */
module Isa {
  import opened Bits

  /** The two firmware architectures that `%arch` may select. */
  datatype Arch = Arch5 | Arch15

  datatype RegKind = Gpr | Spr | Offr

  datatype Direction = Absolute | Back | Forward

  /** An operand as written in assembly text.  Only the parser ever sees `LinkReg`. */
  datatype Operand =
    | Imm(imm: word)
    | Reg(kind: RegKind, nr: word)
    | Direct(offset: word)
    | Indirect(offset: word, offr: word)
    | Ref(name: string, dir: Direction)
    | Raw(raw: word)
    | LinkReg(lr: word)

  datatype Op =
    | Mul | Add | AddS | AddC | AddSC | Sub | SubS | SubC | SubSC
    | Sra | Or | And | Xor | Sr | Srx | Sl | Rl | Rr | Nand | Orx
    | Mov | Jmp | Jand | Jnand | Js | Jns | Je | Jne | Jls | Jges | Jgs | Jles
    | Jl | Jge | Jg | Jle | Jdn | Jdpz | Jdp | Jdnz
    | Jzx | Jnzx | Jext | Jnext | Call | Calls | Ret | Rets
    | Tkiph | Tkiphs | Tkipl | Tkipls | Nap
    | RawCode(code: word)

  /** One line of assembly text. */
  datatype Line =
    | ArchLine(arch: word)
    | StartLine(startName: string)
    | LabelLine(labelName: string)
    | InsnLine(op: Op, args: seq<Operand>)

  /** One binary instruction, as unpacked from or packed into eight bytes. */
  datatype Bin = Bin(opcode: word, a: word, b: word, c: word)

  /** The opcode of the mnemonics that stand for one opcode and three plain operands. */
  function FixedOpcode(op: Op): word {
    match op
    case Mul => 0x101  case Add => 0x1C0  case AddS => 0x1C2  case AddC => 0x1C1
    case AddSC => 0x1C3  case Sub => 0x1D0  case SubS => 0x1D2  case SubC => 0x1D1
    case SubSC => 0x1D3  case Sra => 0x130  case Or => 0x160  case And => 0x140
    case Xor => 0x170  case Sr => 0x120  case Sl => 0x110  case Rl => 0x1A0
    case Rr => 0x1B0  case Nand => 0x150
    case Jand => 0x040  case Jnand => 0x041  case Js => 0x050  case Jns => 0x051
    case Je => 0x0D0  case Jne => 0x0D1  case Jls => 0x0D2  case Jges => 0x0D3
    case Jgs => 0x0D4  case Jles => 0x0D5  case Jl => 0x0DA  case Jge => 0x0DB
    case Jg => 0x0DC  case Jle => 0x0DD  case Jdn => 0x0D6  case Jdpz => 0x0D7
    case Jdp => 0x0D8  case Jdnz => 0x0D9
    case _ => 0
  }

  /** Three-operand instructions that store a result. */
  predicate IsArith(op: Op) {
    op in {Mul, Add, AddS, AddC, AddSC, Sub, SubS, SubC, SubSC, Sra, Or, And, Xor, Sr, Sl, Rl, Rr, Nand}
  }

  /** Three-operand instructions whose last operand is a jump target. */
  predicate IsBranch(op: Op) {
    op in {Jand, Jnand, Js, Jns, Je, Jne, Jls, Jges, Jgs, Jles, Jl, Jge, Jg, Jle, Jdn, Jdpz, Jdp, Jdnz}
  }

  /** Instructions with a mask and a shift folded into the opcode. */
  predicate IsExtended(op: Op) {
    op in {Srx, Orx, Jzx, Jnzx}
  }
}
