/** From one parsed line to one output instruction: the grammar actions that build operand lists,
    the pseudo instruction expansions, and the opcode merging of the assembler. */
module Lowering {
  import opened Wrappers
  import opened Bits
  import opened Isa
  import opened Operands

  /** A parsed instruction; operand slots that the C structure leaves NULL are absent at the end. */
  datatype Insn = Insn(op: Op, opers: seq<Operand>)

  /** An assembled instruction whose label references are still symbolic. */
  datatype Code = Code(opcode: word, a: OutOperand, b: OutOperand, c: OutOperand)

  /** No label operand has been overwritten by an address yet. */
  predicate Symbolic(code: Code) {
    !code.a.Resolved? && !code.b.Resolved? && !code.c.Resolved?
  }

  // ---------------------------------------------------------------- grammar actions

  /** Only zero is allowed as an immediate destination. */
  predicate StoreOk(o: Operand) {
    !(o.Imm? && o.imm != 0)
  }

  predicate Plain(o: Operand) {
    !o.LinkReg?
  }

  const R0 := Reg(Gpr, 0)

  function ParseThree(op: Op, args: seq<Operand>): Result<Insn, AsmError> {
    if |args| != 3 || !Plain(args[0]) || !Plain(args[1]) || !Plain(args[2]) then Err(SyntaxError)
    else if !StoreOk(args[2]) then Err(StoreImmediate)
    else Ok(Insn(op, args))
  }

  function ParseExtended(op: Op, args: seq<Operand>): Result<Insn, AsmError> {
    if |args| != 5 || !args[0].Imm? || !args[1].Imm? || !Plain(args[2]) || !Plain(args[3]) || !Plain(args[4])
    then Err(SyntaxError)
    else if !StoreOk(args[4]) then Err(StoreImmediate)
    else Ok(Insn(op, [Raw(args[0].imm), Raw(args[1].imm), args[2], args[3], args[4]]))
  }

  function ParseTwo(op: Op, args: seq<Operand>): Result<Insn, AsmError> {
    if |args| != 2 || !Plain(args[0]) || !Plain(args[1]) then Err(SyntaxError)
    else if !StoreOk(args[1]) then Err(StoreImmediate)
    else Ok(Insn(op, args))
  }

  /** All four TKIP mnemonics become one operation with a flags immediate in the middle. */
  function ParseTkip(args: seq<Operand>, flags: word): Result<Insn, AsmError> {
    var two :- ParseTwo(Tkiph, args);
    Ok(Insn(Tkiph, [two.opers[0], Imm(flags), two.opers[1]]))
  }

  /** The scanner knows the link registers lr0 to lr3 only. */
  predicate IsLink(o: Operand) {
    o.LinkReg? && o.lr <= 3
  }

  function ParseInsn(op: Op, args: seq<Operand>): (r: Result<Insn, AsmError>)
    ensures r.Ok? ==> |r.value.opers| <= 5
  {
    if IsArith(op) || IsBranch(op) || op.RawCode? then ParseThree(op, args)
    else if IsExtended(op) then ParseExtended(op, args)
    else match op
      case Mov => ParseTwo(op, args)
      case Jmp => if |args| == 1 && args[0].Ref? then Ok(Insn(op, args)) else Err(SyntaxError)
      case Jext => if |args| == 2 && args[0].Imm? && args[1].Ref? then Ok(Insn(op, args)) else Err(SyntaxError)
      case Jnext => if |args| == 2 && args[0].Imm? && args[1].Ref? then Ok(Insn(op, args)) else Err(SyntaxError)
      case Call =>
        if |args| == 2 && IsLink(args[0]) && args[1].Ref? then Ok(Insn(op, [Raw(args[0].lr), Raw(0), args[1]]))
        else Err(SyntaxError)
      case Calls => if |args| == 1 && args[0].Ref? then Ok(Insn(op, [R0, R0, args[0]])) else Err(SyntaxError)
      case Ret =>
        if |args| == 2 && IsLink(args[0]) && IsLink(args[1])
        then Ok(Insn(op, [Raw(args[0].lr), Raw(0), Raw(args[1].lr)]))
        else Err(SyntaxError)
      case Rets => if args == [] then Ok(Insn(op, [R0, R0, Raw(0)])) else Err(SyntaxError)
      case Tkiph => ParseTkip(args, 1)
      case Tkiphs => ParseTkip(args, 3)
      case Tkipl => ParseTkip(args, 0)
      case Tkipls => ParseTkip(args, 2)
      case Nap => if args == [] then Ok(Insn(op, [R0, R0, Raw(0)])) else Err(SyntaxError)
      case _ => Err(SyntaxError)
  }

  // ---------------------------------------------------------------- low level assembly

  predicate IsSprOperand(o: Operand) {
    o.Reg? && o.kind == Spr
  }

  predicate IsMemOperand(o: Operand) {
    o.Direct? || o.Indirect?
  }

  /** Three operands become three output operands; the two inputs must not both be special purpose
      registers and must not both be memory. */
  function AssembleLow(arch: Arch, opcode: word, x: Operand, y: Operand, z: Operand): (r: Result<Code, AsmError>)
    ensures r.Ok? ==> Symbolic(r.value)
  {
    var a :- GenerateOperand(arch, x);
    if IsSprOperand(x) && IsSprOperand(y) then Err(MultipleSpr)
    else if IsMemOperand(x) && IsMemOperand(y) then Err(MultipleMem)
    else
      var b :- GenerateOperand(arch, y);
      var c :- GenerateOperand(arch, z);
      Ok(Code(opcode, a, b, c))
  }

  function AssembleThree(arch: Arch, opcode: word, opers: seq<Operand>): (r: Result<Code, AsmError>)
    ensures r.Ok? ==> Symbolic(r.value)
  {
    if |opers| < 3 then Err(MissingOperand) else AssembleLow(arch, opcode, opers[0], opers[1], opers[2])
  }

  /** Fold the first two raw operands, a mask and a shift, into the opcode. */
  function AssembleExtended(arch: Arch, base: word, opers: seq<Operand>): (r: Result<Code, AsmError>)
    requires base < 0x1000
    ensures r.Ok? ==> Symbolic(r.value)
  {
    if |opers| < 5 || !opers[0].Raw? || !opers[1].Raw? then Err(MissingOperand)
    else if opers[0].raw >= 0x10 || opers[1].raw >= 0x10 then Err(ExtensionTooBig)
    else AssembleLow(arch, base + opers[0].raw * 0x10 + opers[1].raw, opers[2], opers[3], opers[4])
  }

  /** Fold an external condition into the opcode; the first two operands become dummies. */
  function AssembleExternal(arch: Arch, base: word, opers: seq<Operand>): (r: Result<Code, AsmError>)
    requires base < 0x1000
    ensures r.Ok? ==> Symbolic(r.value)
  {
    if |opers| < 2 || !opers[0].Imm? then Err(MissingOperand)
    else if opers[0].imm >= 0x100 then Err(ConditionTooBig)
    else AssembleLow(arch, base + opers[0].imm, R0, R0, opers[1])
  }

  // ---------------------------------------------------------------- pseudo instructions

  /** Pseudo operations rank above the operations they expand into. */
  function Rank(op: Op): nat {
    match op case Mov => 1 case Jmp => 1 case Jand => 1 case Jnand => 1 case _ => 0
  }

  /** `mov` is `or` with zero, or `orx 7, 8` with the two bytes of a long immediate. */
  function MovExpansion(arch: Arch, opers: seq<Operand>): (r: Result<Insn, AsmError>)
    ensures r.Ok? ==> Rank(r.value.op) == 0
  {
    if |opers| < 2 then Err(MissingOperand)
    else if !opers[0].Imm? then Ok(Insn(Or, [opers[0], Imm(0), opers[1]]))
    else if !IsPossibleImm(opers[0].imm) then Err(LongMov)
    else if IsValidImm(arch, opers[0].imm) then Ok(Insn(Or, [opers[0], Imm(0), opers[1]]))
    else Ok(Insn(Orx, [Raw(7), Raw(8), Imm(opers[0].imm / 0x100 % 0x100), Imm(opers[0].imm % 0x100), opers[1]]))
  }

  /** `jmp` is a jump on the external condition that is always true. */
  function JmpExpansion(opers: seq<Operand>): Result<Insn, AsmError> {
    if |opers| < 1 then Err(MissingOperand) else Ok(Insn(Jext, [Imm(0x7F), opers[0]]))
  }

  /** One plus the index of the lowest set bit; zero for zero. */
  function Ffs(x: nat): nat {
    if x == 0 then 0 else if x % 2 == 1 then 1 else 1 + Ffs(x / 2)
  }

  /** `~x` */
  function Complement(x: word): word {
    0xFFFF_FFFF - x
  }

  predicate IsPowerOfTwo(v: word) {
    v > 0 && BitAnd(v, v - 1) == 0
  }

  /** All bits set are contiguous; the sum wraps around when the run reaches bit 31. */
  predicate IsContiguous(mask: word) {
    mask == 0 || IsPowerOfTwo(Word(mask + BitAnd(mask - 1, Complement(mask)) + 1))
  }

  /** The start of a mask's run of ones, and its length less one. */
  function MaskField(mask: word): (word, word)
    requires mask > 0
  {
    var first := Ffs(mask);
    var last := Ffs(Complement(Word(ShiftRight(mask, first - 1)))) - 1 + first - 1;
    (Word(first - 1), Word(last - first))
  }

  lemma ZeroIsValid(arch: Arch)
    ensures IsValidImm(arch, 0)
  {
  }

  /** `jand` with a single immediate that is too long becomes `jnzx` on the field the mask selects
      (`jzx` for `jnand`); None means that the native instruction will do. */
  function JandExpansion(arch: Arch, opers: seq<Operand>, inverted: bool): (r: Result<Option<Insn>, AsmError>)
    ensures r.Ok? && r.value.Some? ==> Rank(r.value.value.op) == 0
  {
    if |opers| < 3 then Err(MissingOperand)
    else if opers[0].Imm? == opers[1].Imm? then Ok(None)
    else
      var imm := if opers[1].Imm? then opers[1].imm else opers[0].imm;
      if IsValidImm(arch, imm) then Ok(None)
      else if !IsContiguous(imm) then Err(NotContiguous)
      else
        ZeroIsValid(arch);
        var (start, width) := MaskField(imm);
        var input := if !opers[0].Imm? then opers[0] else opers[1];
        Ok(Some(Insn(if inverted then Jzx else Jnzx, [Raw(width), Raw(start), input, Imm(0), opers[2]])))
  }

  /** The instruction a mnemonic stands for; a `jand` that is encodable as such stands for itself. */
  function Expand(arch: Arch, insn: Insn): (r: Result<Insn, AsmError>)
    ensures r.Ok? ==> Rank(r.value.op) == 0 || (r.value == insn && (insn.op == Jand || insn.op == Jnand))
  {
    match insn.op
    case Mov => MovExpansion(arch, insn.opers)
    case Jmp => JmpExpansion(insn.opers)
    case Jand => var e :- JandExpansion(arch, insn.opers, false); Ok(if e.Some? then e.value else insn)
    case Jnand => var e :- JandExpansion(arch, insn.opers, true); Ok(if e.Some? then e.value else insn)
    case _ => Ok(insn)
  }

  function OnArch(arch: Arch, needed: Arch, code: Result<Code, AsmError>): Result<Code, AsmError> {
    if arch == needed then code else Err(WrongArch)
  }

  function LowerNative(arch: Arch, insn: Insn): (r: Result<Code, AsmError>)
    ensures r.Ok? ==> Symbolic(r.value)
  {
    match insn.op
    case Srx => AssembleExtended(arch, 0x200, insn.opers)
    case Orx => AssembleExtended(arch, 0x300, insn.opers)
    case Jzx => AssembleExtended(arch, 0x400, insn.opers)
    case Jnzx => AssembleExtended(arch, 0x500, insn.opers)
    case Jnext => AssembleExternal(arch, 0x600, insn.opers)
    case Jext => AssembleExternal(arch, 0x700, insn.opers)
    case Call => OnArch(arch, Arch5, AssembleThree(arch, 0x002, insn.opers))
    case Calls => OnArch(arch, Arch15, AssembleThree(arch, 0x004, insn.opers))
    case Ret => OnArch(arch, Arch5, AssembleThree(arch, 0x003, insn.opers))
    case Rets => OnArch(arch, Arch15, AssembleThree(arch, 0x005, insn.opers))
    case Tkiph => AssembleThree(arch, 0x1E0, insn.opers)
    case Tkiphs => AssembleThree(arch, 0x1E0, insn.opers)
    case Tkipl => AssembleThree(arch, 0x1E0, insn.opers)
    case Tkipls => AssembleThree(arch, 0x1E0, insn.opers)
    case Nap => AssembleThree(arch, 0x001, insn.opers)
    case RawCode(code) => AssembleThree(arch, code, insn.opers)
    case _ => AssembleThree(arch, FixedOpcode(insn.op), insn.opers)
  }

  /** assemble_instruction: every instruction, whatever it expands to, becomes one output. */
  function Lower(arch: Arch, insn: Insn): (r: Result<Code, AsmError>)
    ensures r.Ok? ==> Symbolic(r.value)
  {
    var native :- Expand(arch, insn);
    LowerNative(arch, native)
  }

  /** Lowering in two steps. */
  lemma LowerExpanded(arch: Arch, insn: Insn, native: Result<Insn, AsmError>)
    requires Expand(arch, insn) == native
    ensures Lower(arch, insn) == if native.Err? then Err(native.error) else LowerNative(arch, native.value)
  {
  }
}
