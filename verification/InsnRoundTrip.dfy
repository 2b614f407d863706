/** What becomes of one instruction that is disassembled and assembled again: which ones the tools accept,
    what they make of those, and which ones survive. */
module InsnRoundTrip {
  import opened Wrappers
  import opened Bits
  import opened Isa
  import opened Operands
  import opened Lowering
  import opened Listing

  /** Fields as wide as the instruction format has them. */
  predicate InFormat(arch: Arch, bin: Bin) {
    bin.opcode < 0x1000 && InField(arch, bin.a) && InField(arch, bin.b) && InField(arch, bin.c)
  }

  predicate IsSprField(arch: Arch, w: word) {
    match arch case Arch5 => 0x800 <= w < 0xA00 case Arch15 => 0x1000 <= w < 0x1400
  }

  predicate IsMemField(arch: Arch, w: word) {
    match arch case Arch5 => w < 0x800 || 0xA00 <= w < 0xBC0 case Arch15 => w < 0x1000 || 0x1400 <= w < 0x1780
  }

  /** The field of general purpose register 0. */
  function R0Field(arch: Arch): word {
    match arch case Arch5 => 0xBC0 case Arch15 => 0x1780
  }

  /** Two input fields the assembler accepts: encodable, and not both special purpose registers nor
      both memory. */
  predicate StdInputs(arch: Arch, a: word, b: word) {
    && Encodable(arch, a) && Encodable(arch, b)
    && !(IsSprField(arch, a) && IsSprField(arch, b))
    && !(IsMemField(arch, a) && IsMemField(arch, b))
  }

  /** A destination field the parser accepts: encodable, and no immediate but zero. */
  predicate StdStore(arch: Arch, c: word) {
    Encodable(arch, c) && (c >= ImmBase(arch) ==> c == ImmBase(arch))
  }

  predicate CanonicalConstant(arch: Arch, decodeUnknown: bool, bin: Bin) {
    var name := FixedName(bin.opcode);
    var r0 := R0Field(arch);
    if name.Some? then StdInputs(arch, bin.a, bin.b) && (IsArith(name.value) ==> StdStore(arch, bin.c))
    else if bin.opcode == 0x002 then arch == Arch15 || (bin.a <= 3 && bin.b == 0)
    else if bin.opcode == 0x003 then arch == Arch5 && bin.a <= 3 && bin.b == 0 && bin.c <= 3
    else if bin.opcode == 0x004 then arch == Arch15 && bin.a == r0 && bin.b == r0
    else if bin.opcode == 0x005 then arch == Arch15 && bin.a == r0 && bin.b == r0 && bin.c == 0
    else if bin.opcode == 0x1E0 then
      Encodable(arch, bin.a) && ImmBase(arch) <= bin.b <= ImmBase(arch) + 3 && StdStore(arch, bin.c)
    else if bin.opcode == 0x001 then bin.a == r0 && bin.b == r0 && bin.c == 0
    else if bin.opcode == 0x000 || !decodeUnknown then true
    else StdInputs(arch, bin.a, bin.b) && StdStore(arch, bin.c)
  }

  /** The condition on a single instruction, read off opcode by opcode. */
  predicate Canonical(arch: Arch, decodeUnknown: bool, bin: Bin) {
    var top := bin.opcode / 0x100 % 0x10;
    if 2 <= top <= 3 then StdInputs(arch, bin.a, bin.b) && StdStore(arch, bin.c)
    else if 4 <= top <= 5 then StdInputs(arch, bin.a, bin.b)
    else if 6 <= top <= 7 then bin.a == R0Field(arch) && bin.b == R0Field(arch)
    else CanonicalConstant(arch, decodeUnknown, bin)
  }

  function TkipFlagsOf(arch: Arch, b: word): word {
    match arch case Arch5 => b % 0x400 case Arch15 => b % 0x800
  }

  predicate AcceptedConstant(arch: Arch, decodeUnknown: bool, bin: Bin) {
    var name := FixedName(bin.opcode);
    if name.Some? then StdInputs(arch, bin.a, bin.b) && (IsArith(name.value) ==> StdStore(arch, bin.c))
    else if bin.opcode == 0x002 then arch == Arch15 || bin.a <= 3
    else if bin.opcode == 0x003 then arch == Arch5 && bin.a <= 3 && bin.c <= 3
    else if bin.opcode == 0x004 || bin.opcode == 0x005 then arch == Arch15
    else if bin.opcode == 0x1E0 then
      TkipFlagsOf(arch, bin.b) <= 3 && Encodable(arch, bin.a) && StdStore(arch, bin.c)
    else if bin.opcode == 0x001 || bin.opcode == 0x000 || !decodeUnknown then true
    else StdInputs(arch, bin.a, bin.b) && StdStore(arch, bin.c)
  }

  /** The instructions that neither tool refuses. */
  predicate Accepted(arch: Arch, decodeUnknown: bool, bin: Bin) {
    var top := bin.opcode / 0x100 % 0x10;
    if 2 <= top <= 3 then StdInputs(arch, bin.a, bin.b) && StdStore(arch, bin.c)
    else if 4 <= top <= 5 then StdInputs(arch, bin.a, bin.b)
    else if 6 <= top <= 7 then true
    else AcceptedConstant(arch, decodeUnknown, bin)
  }

  function RewrittenConstant(arch: Arch, bin: Bin): Bin {
    var r0 := R0Field(arch);
    if bin.opcode == 0x004 then Bin(bin.opcode, r0, r0, bin.c)
    else if bin.opcode == 0x005 || bin.opcode == 0x001 then Bin(bin.opcode, r0, r0, 0)
    else if bin.opcode == 0x003 || (bin.opcode == 0x002 && arch == Arch5) then Bin(bin.opcode, bin.a, 0, bin.c)
    else if bin.opcode == 0x1E0 then Bin(0x1E0, bin.a, EncodeImm(arch, TkipFlagsOf(arch, bin.b)), bin.c)
    else bin
  }

  /** What an accepted instruction comes back as: operands that are not printed are filled in again. */
  function Rewritten(arch: Arch, bin: Bin): Bin {
    if 6 <= bin.opcode / 0x100 % 0x10 <= 7 then Bin(bin.opcode, R0Field(arch), R0Field(arch), bin.c)
    else RewrittenConstant(arch, bin)
  }

  /** Print one instruction with the given label name, and assemble the printed line again. */
  function Reassembled(arch: Arch, d: Dis, name: string): Result<Code, AsmError>
    requires |d.operands| == 5
  {
    var insn :- ParseInsn(d.op, PrintArgs(d, name));
    Lower(arch, insn)
  }

  /** The code holds the fields of the instruction, with the label in place of a jump target. */
  predicate Matches(d: Dis, code: Code, bin: Bin, name: string) {
    && code.opcode == bin.opcode && code.a == Normal(bin.a) && code.b == Normal(bin.b)
    && code.c == if HasLabel(d) then LabelRef(name, Absolute) else Normal(bin.c)
  }

  /** There is a result exactly under the condition, and it is this instruction. */
  predicate ExactResult(d: Dis, name: string, r: Result<Code, AsmError>, condition: bool, back: Bin) {
    (r.Ok? <==> condition) && (r.Ok? ==> Matches(d, r.value, back, name))
  }

  /** The printed line of d assembles exactly under the condition, and then to this instruction. */
  predicate Exact(arch: Arch, d: Dis, name: string, condition: bool, back: Bin)
    requires |d.operands| == 5
  {
    ExactResult(d, name, Reassembled(arch, d, name), condition, back)
  }

  // ---------------------------------------------------------------- decoded operands

  /** What kind of operand a field decodes to. */
  lemma DecodedKind(arch: Arch, w: word)
    requires InField(arch, w)
    ensures var o := DecodeOperand(arch, w);
            && Plain(o) && !o.Ref? && !o.Raw?
            && (IsSprOperand(o) <==> IsSprField(arch, w))
            && (IsMemOperand(o) <==> IsMemField(arch, w))
            && (o.Imm? <==> w >= ImmBase(arch))
            && (o.Imm? ==> IsValidImm(arch, o.imm))
  {
    match arch {
      case Arch5 => Ranges5(w);
      case Arch15 => Ranges15(w);
    }
    if w >= ImmBase(arch) {
      ImmFieldBack(arch, w);
      ValidImm(arch, DecodeImm(arch, w));
    }
  }

  lemma DecodedStore(arch: Arch, w: word)
    requires InField(arch, w)
    ensures StoreOk(DecodeOperand(arch, w)) <==> (w >= ImmBase(arch) ==> w == ImmBase(arch))
  {
    DecodedKind(arch, w);
    if w >= ImmBase(arch) {
      ImmFieldBack(arch, w);
    }
  }

  /** Two decoded inputs assemble back to their fields, or not at all. */
  lemma StdAssembles(arch: Arch, opcode: word, a: word, b: word, z: Operand)
    requires InField(arch, a) && InField(arch, b)
    ensures var r := AssembleLow(arch, opcode, DecodeOperand(arch, a), DecodeOperand(arch, b), z);
            var g := GenerateOperand(arch, z);
            && (r.Ok? <==> StdInputs(arch, a, b) && g.Ok?)
            && (r.Ok? ==> r.value == Code(opcode, Normal(a), Normal(b), g.value))
  {
    DecodeEncode(arch, a);
    DecodeEncode(arch, b);
    DecodedKind(arch, a);
    DecodedKind(arch, b);
  }

  /** Two decoded inputs with a label. */
  lemma JumpIsExact(arch: Arch, d: Dis, bin: Bin, name: string)
    requires InFormat(arch, bin) && HasLabel(d)
    ensures ExactResult(d, name,
              AssembleLow(arch, bin.opcode, DecodeOperand(arch, bin.a), DecodeOperand(arch, bin.b),
                          Ref(name, Absolute)),
              StdInputs(arch, bin.a, bin.b), bin)
  {
    StdAssembles(arch, bin.opcode, bin.a, bin.b, Ref(name, Absolute));
  }

  /** Two decoded inputs with a decoded destination. */
  lemma StoreIsExact(arch: Arch, d: Dis, bin: Bin, name: string)
    requires InFormat(arch, bin) && !HasLabel(d)
    ensures var z := DecodeOperand(arch, bin.c);
            ExactResult(d, name,
              if StoreOk(z) then AssembleLow(arch, bin.opcode, DecodeOperand(arch, bin.a),
                      DecodeOperand(arch, bin.b), z)
              else Err(StoreImmediate),
              StdInputs(arch, bin.a, bin.b) && StdStore(arch, bin.c), bin)
  {
    DecodedStore(arch, bin.c);
    DecodeEncode(arch, bin.c);
    StdAssembles(arch, bin.opcode, bin.a, bin.b, DecodeOperand(arch, bin.c));
  }

  // ---------------------------------------------------------------- one lemma per form

  lemma ThreeParsed(op: Op, x: Operand, y: Operand, z: Operand, name: string)
    requires (op.RawCode? || IsArith(op)) && Plain(x) && Plain(y) && Plain(z)
    ensures ParseInsn(op, PrintArgs(Dis(op, [Some(x), Some(y), Some(z), None, None], -1, 0), name))
         == if StoreOk(z) then Ok(Insn(op, [x, y, z])) else Err(StoreImmediate)
  {
    assert PrintArgs(Dis(op, [Some(x), Some(y), Some(z), None, None], -1, 0), name) == [x, y, z];
  }

  lemma ThreeLowered(arch: Arch, op: Op, opcode: word, x: Operand, y: Operand, z: Operand)
    requires op == RawCode(opcode) || (IsArith(op) && FixedOpcode(op) == opcode)
    ensures Lower(arch, Insn(op, [x, y, z])) == AssembleLow(arch, opcode, x, y, z)
  {
    ThreeExpanded(arch, op, [x, y, z]);
    ThreeNative(arch, op, opcode, [x, y, z]);
  }

  lemma ThreeExpanded(arch: Arch, op: Op, opers: seq<Operand>)
    requires op.RawCode? || IsArith(op)
    ensures Expand(arch, Insn(op, opers)) == Ok(Insn(op, opers))
  {
  }

  lemma ThreeNative(arch: Arch, op: Op, opcode: word, opers: seq<Operand>)
    requires op == RawCode(opcode) || (IsArith(op) && FixedOpcode(op) == opcode)
    ensures LowerNative(arch, Insn(op, opers)) == AssembleThree(arch, opcode, opers)
  {
  }

  lemma ThreeReassembled(arch: Arch, op: Op, opcode: word, x: Operand, y: Operand, z: Operand, name: string)
    requires op == RawCode(opcode) || (IsArith(op) && FixedOpcode(op) == opcode)
    requires Plain(x) && Plain(y) && Plain(z)
    ensures Reassembled(arch, Dis(op, [Some(x), Some(y), Some(z), None, None], -1, 0), name)
         == if StoreOk(z) then AssembleLow(arch, opcode, x, y, z) else Err(StoreImmediate)
  {
    ThreeParsed(op, x, y, z, name);
    ThreeLowered(arch, op, opcode, x, y, z);
  }

  lemma ThreeComesBack(arch: Arch, op: Op, bin: Bin, name: string)
    requires InFormat(arch, bin) && (op == RawCode(bin.opcode) || (IsArith(op) && FixedOpcode(op) == bin.opcode))
    ensures Exact(arch, DisThree(arch, op, bin), name,
                  StdInputs(arch, bin.a, bin.b) && StdStore(arch, bin.c), bin)
  {
    var (x, y, z) := (DecodeOperand(arch, bin.a), DecodeOperand(arch, bin.b), DecodeOperand(arch, bin.c));
    ThreeReassembled(arch, op, bin.opcode, x, y, z, name);
    StoreIsExact(arch, DisThree(arch, op, bin), bin, name);
  }

  lemma BranchLowered(arch: Arch, op: Op, x: Operand, y: Operand, z: Operand)
    requires IsBranch(op)
    requires (x.Imm? ==> IsValidImm(arch, x.imm)) && (y.Imm? ==> IsValidImm(arch, y.imm))
    ensures Lower(arch, Insn(op, [x, y, z])) == AssembleLow(arch, FixedOpcode(op), x, y, z)
  {
    assert Expand(arch, Insn(op, [x, y, z])) == Ok(Insn(op, [x, y, z]));
  }

  lemma BranchReassembled(arch: Arch, op: Op, x: Operand, y: Operand, addr: nat, name: string)
    requires IsBranch(op) && Plain(x) && Plain(y)
    requires (x.Imm? ==> IsValidImm(arch, x.imm)) && (y.Imm? ==> IsValidImm(arch, y.imm))
    ensures Reassembled(arch, Dis(op, [Some(x), Some(y), None, None, None], 2, addr), name)
         == AssembleLow(arch, FixedOpcode(op), x, y, Ref(name, Absolute))
  {
    var z := Ref(name, Absolute);
    assert PrintArgs(Dis(op, [Some(x), Some(y), None, None, None], 2, addr), name) == [x, y, z];
    BranchLowered(arch, op, x, y, z);
  }

  lemma BranchComesBack(arch: Arch, op: Op, bin: Bin, name: string)
    requires InFormat(arch, bin) && IsBranch(op) && FixedOpcode(op) == bin.opcode
    ensures Exact(arch, DisBranch(arch, op, bin), name, StdInputs(arch, bin.a, bin.b), bin)
  {
    DecodedKind(arch, bin.a);
    DecodedKind(arch, bin.b);
    BranchReassembled(arch, op, DecodeOperand(arch, bin.a), DecodeOperand(arch, bin.b), bin.c, name);
    JumpIsExact(arch, DisBranch(arch, op, bin), bin, name);
  }

  lemma OpcodeDigits(opcode: word)
    requires opcode < 0x1000
    ensures opcode / 0x100 * 0x100 + opcode / 0x10 % 0x10 * 0x10 + opcode % 0x10 == opcode
  {
  }

  lemma ExtendedNative(arch: Arch, top: word, opers: seq<Operand>)
    requires 2 <= top <= 5
    ensures LowerNative(arch, Insn(ExtendedName(top), opers)) == AssembleExtended(arch, top * 0x100, opers)
  {
  }

  lemma ExtendedLowered(arch: Arch, top: word, m: word, s: word, x: Operand, y: Operand, z: Operand)
    requires 2 <= top <= 5 && m < 0x10 && s < 0x10
    ensures Lower(arch, Insn(ExtendedName(top), [Operand.Raw(m), Operand.Raw(s), x, y, z]))
         == AssembleLow(arch, top * 0x100 + m * 0x10 + s, x, y, z)
  {
    var insn := Insn(ExtendedName(top), [Operand.Raw(m), Operand.Raw(s), x, y, z]);
    ExtendedNative(arch, top, insn.opers);
    assert Expand(arch, insn) == Ok(insn);
  }

  /** srx and orx print a fifth operand, jzx and jnzx a label. */
  function ExtendedDis(op: Op, m: word, s: word, x: Operand, y: Operand, z: Operand, labelref: int, addr: nat): Dis {
    Dis(op, [Some(Imm(m)), Some(Imm(s)), Some(x), Some(y), if labelref == 4 then None else Some(z)], labelref, addr)
  }

  lemma ExtendedPrinted(op: Op, m: word, s: word, x: Operand, y: Operand, z: Operand,
                          labelref: int, addr: nat, name: string)
    requires labelref == -1 || (labelref == 4 && z == Ref(name, Absolute))
    ensures PrintArgs(ExtendedDis(op, m, s, x, y, z, labelref, addr), name) == [Imm(m), Imm(s), x, y, z]
  {
  }

  lemma ExtendedParsed(op: Op, m: word, s: word, x: Operand, y: Operand, z: Operand)
    requires op in {Srx, Orx, Jzx, Jnzx} && Plain(x) && Plain(y) && Plain(z)
    ensures ParseInsn(op, [Imm(m), Imm(s), x, y, z])
         == if StoreOk(z) then Ok(Insn(op, [Operand.Raw(m), Operand.Raw(s), x, y, z])) else Err(StoreImmediate)
  {
  }

  lemma ExtendedReassembled(arch: Arch, top: word, m: word, s: word, x: Operand, y: Operand, z: Operand,
                            labelref: int, addr: nat, name: string)
    requires 2 <= top <= 5 && m < 0x10 && s < 0x10 && Plain(x) && Plain(y) && Plain(z)
    requires labelref == -1 || (labelref == 4 && z == Ref(name, Absolute))
    ensures Reassembled(arch, ExtendedDis(ExtendedName(top), m, s, x, y, z, labelref, addr), name)
            == if StoreOk(z) then AssembleLow(arch, top * 0x100 + m * 0x10 + s, x, y, z) else Err(StoreImmediate)
  {
    ExtendedPrinted(ExtendedName(top), m, s, x, y, z, labelref, addr, name);
    ExtendedParsed(ExtendedName(top), m, s, x, y, z);
    ExtendedLowered(arch, top, m, s, x, y, z);
  }

  lemma ExtendedComesBack(arch: Arch, op: Op, bin: Bin, name: string)
    requires InFormat(arch, bin) && 2 <= bin.opcode / 0x100 <= 5 && op == ExtendedName(bin.opcode / 0x100)
    ensures Exact(arch, DisExtended(arch, op, bin), name,
                  StdInputs(arch, bin.a, bin.b) && (op == Srx || op == Orx ==> StdStore(arch, bin.c)), bin)
  {
    OpcodeDigits(bin.opcode);
    if op == Srx || op == Orx {
      ExtendedStoreBack(arch, op, bin, name);
    } else {
      ExtendedJumpBack(arch, op, bin, name);
    }
  }

  lemma ExtendedStoreBack(arch: Arch, op: Op, bin: Bin, name: string)
    requires InFormat(arch, bin) && 2 <= bin.opcode / 0x100 <= 3 && op == ExtendedName(bin.opcode / 0x100)
    ensures Exact(arch, DisExtended(arch, op, bin), name, StdInputs(arch, bin.a, bin.b) && StdStore(arch, bin.c), bin)
  {
    var (top, m, s) := (bin.opcode / 0x100, bin.opcode / 0x10 % 0x10, bin.opcode % 0x10);
    var (x, y, z) := (DecodeOperand(arch, bin.a), DecodeOperand(arch, bin.b), DecodeOperand(arch, bin.c));
    OpcodeDigits(bin.opcode);
    ExtendedReassembled(arch, top, m, s, x, y, z, -1, 0, name);
    StoreIsExact(arch, ExtendedDis(op, m, s, x, y, z, -1, 0), bin, name);
  }

  lemma ExtendedJumpBack(arch: Arch, op: Op, bin: Bin, name: string)
    requires InFormat(arch, bin) && 4 <= bin.opcode / 0x100 <= 5 && op == ExtendedName(bin.opcode / 0x100)
    ensures Exact(arch, DisExtended(arch, op, bin), name, StdInputs(arch, bin.a, bin.b), bin)
  {
    var (top, m, s) := (bin.opcode / 0x100, bin.opcode / 0x10 % 0x10, bin.opcode % 0x10);
    var (x, y, z) := (DecodeOperand(arch, bin.a), DecodeOperand(arch, bin.b), Ref(name, Absolute));
    OpcodeDigits(bin.opcode);
    ExtendedReassembled(arch, top, m, s, x, y, z, 4, bin.c, name);
    JumpIsExact(arch, ExtendedDis(op, m, s, x, y, z, 4, bin.c), bin, name);
  }

  lemma R0Assembles(arch: Arch, opcode: word, z: Operand)
    ensures var r := AssembleLow(arch, opcode, R0, R0, z);
            var g := GenerateOperand(arch, z);
            && (r.Ok? <==> g.Ok?)
            && (r.Ok? ==> r.value == Code(opcode, Normal(R0Field(arch)), Normal(R0Field(arch)), g.value))
  {
  }

  lemma ExternalReassembled(arch: Arch, op: Op, top: word, cond: word, addr: nat, name: string)
    requires cond < 0x100 && (if op == Jnext then top == 6 else op == Jext && top == 7)
    ensures Reassembled(arch, Dis(op, [Some(Imm(cond)), None, None, None, None], 1, addr), name)
         == AssembleLow(arch, top * 0x100 + cond, R0, R0, Ref(name, Absolute))
  {
    assert PrintArgs(Dis(op, [Some(Imm(cond)), None, None, None, None], 1, addr), name)
           == [Imm(cond), Ref(name, Absolute)];
    ExternalLowered(arch, op, top, cond, Ref(name, Absolute));
  }

  lemma ExternalLowered(arch: Arch, op: Op, top: word, cond: word, z: Operand)
    requires cond < 0x100 && (if op == Jnext then top == 6 else op == Jext && top == 7)
    ensures Lower(arch, Insn(op, [Imm(cond), z])) == AssembleLow(arch, top * 0x100 + cond, R0, R0, z)
  {
    assert Expand(arch, Insn(op, [Imm(cond), z])) == Ok(Insn(op, [Imm(cond), z]));
  }

  lemma ExternalComesBack(arch: Arch, op: Op, bin: Bin, name: string)
    requires InFormat(arch, bin)
             && (if op == Jnext then bin.opcode / 0x100 == 6 else op == Jext && bin.opcode / 0x100 == 7)
    ensures Exact(arch, DisExternal(op, bin), name, true, Bin(bin.opcode, R0Field(arch), R0Field(arch), bin.c))
  {
    ExternalReassembled(arch, op, bin.opcode / 0x100, bin.opcode % 0x100, bin.c, name);
    R0Assembles(arch, bin.opcode, Ref(name, Absolute));
  }

  lemma RawComesBack(arch: Arch, bin: Bin, name: string)
    requires InFormat(arch, bin)
    ensures Exact(arch, DisRaw(bin), name, true, bin)
  {
    ThreeReassembled(arch, RawCode(bin.opcode), bin.opcode,
                     Operand.Raw(bin.a), Operand.Raw(bin.b), Operand.Raw(bin.c), name);
  }

  function TkipOp(flags: word): Op
    requires flags <= 3
  {
    if flags == 1 then Tkiph else if flags == 3 then Tkiphs else if flags == 0 then Tkipl else Tkipls
  }

  lemma TkipParsed(flags: word, x: Operand, z: Operand, name: string)
    requires flags <= 3 && Plain(x) && Plain(z)
    ensures ParseInsn(TkipOp(flags), PrintArgs(Dis(TkipOp(flags), [Some(x), None, Some(z), None, None], -1, 0), name))
         == if StoreOk(z) then Ok(Insn(Tkiph, [x, Imm(flags), z])) else Err(StoreImmediate)
  {
    assert PrintArgs(Dis(TkipOp(flags), [Some(x), None, Some(z), None, None], -1, 0), name) == [x, z];
  }

  lemma TkipLowered(arch: Arch, x: Operand, y: Operand, z: Operand)
    ensures Lower(arch, Insn(Tkiph, [x, y, z])) == AssembleLow(arch, 0x1E0, x, y, z)
  {
    assert Expand(arch, Insn(Tkiph, [x, y, z])) == Ok(Insn(Tkiph, [x, y, z]));
  }

  lemma TkipReassembled(arch: Arch, flags: word, x: Operand, z: Operand, name: string)
    requires flags <= 3 && Plain(x) && Plain(z)
    ensures Reassembled(arch, Dis(TkipOp(flags), [Some(x), None, Some(z), None, None], -1, 0), name)
         == if StoreOk(z) then AssembleLow(arch, 0x1E0, x, Imm(flags), z) else Err(StoreImmediate)
  {
    TkipParsed(flags, x, z, name);
    TkipLowered(arch, x, Imm(flags), z);
  }

  lemma TkipFlags(arch: Arch, b: word)
    requires InField(arch, b) && TkipFlagsOf(arch, b) <= 3
    ensures EncodeImm(arch, TkipFlagsOf(arch, b)) == ImmBase(arch) + TkipFlagsOf(arch, b)
    ensures EncodeImm(arch, TkipFlagsOf(arch, b)) == b <==> ImmBase(arch) <= b <= ImmBase(arch) + 3
  {
  }

  function TkipDis(arch: Arch, bin: Bin, flags: word): Dis
    requires flags <= 3
  {
    Dis(TkipOp(flags), [Some(DecodeOperand(arch, bin.a)), None, Some(DecodeOperand(arch, bin.c)), None, None], -1, 0)
  }

  lemma TkipDisassembles(arch: Arch, bin: Bin)
    ensures DisTkip(arch, bin).Ok? <==> TkipFlagsOf(arch, bin.b) <= 3
    ensures DisTkip(arch, bin).Ok? ==> DisTkip(arch, bin).value == TkipDis(arch, bin, TkipFlagsOf(arch, bin.b))
  {
  }

  lemma TkipIsExact(arch: Arch, d: Dis, bin: Bin, name: string, flags: word)
    requires InFormat(arch, bin) && bin.opcode == 0x1E0 && !HasLabel(d) && flags == TkipFlagsOf(arch, bin.b) <= 3
    ensures var (x, z) := (DecodeOperand(arch, bin.a), DecodeOperand(arch, bin.c));
            ExactResult(d, name,
              if StoreOk(z) then AssembleLow(arch, 0x1E0, x, Imm(flags), z) else Err(StoreImmediate),
              Encodable(arch, bin.a) && StdStore(arch, bin.c),
              Bin(0x1E0, bin.a, EncodeImm(arch, flags), bin.c))
  {
    DecodedStore(arch, bin.c);
    DecodeEncode(arch, bin.a);
    DecodeEncode(arch, bin.c);
  }

  lemma TkipComesBack(arch: Arch, bin: Bin, name: string)
    requires InFormat(arch, bin) && bin.opcode == 0x1E0 && DisTkip(arch, bin).Ok?
    ensures Exact(arch, DisTkip(arch, bin).value, name, Encodable(arch, bin.a) && StdStore(arch, bin.c),
                  Bin(0x1E0, bin.a, EncodeImm(arch, TkipFlagsOf(arch, bin.b)), bin.c))
  {
    var flags := TkipFlagsOf(arch, bin.b);
    TkipDisassembles(arch, bin);
    TkipReassembled(arch, flags, DecodeOperand(arch, bin.a), DecodeOperand(arch, bin.c), name);
    TkipIsExact(arch, TkipDis(arch, bin, flags), bin, name, flags);
  }

  lemma FixedNameOpcode(opcode: word)
    requires FixedName(opcode).Some?
    ensures var op := FixedName(opcode).value; FixedOpcode(op) == opcode && (IsArith(op) || IsBranch(op))
  {
  }

  lemma CallComesBack(arch: Arch, bin: Bin, name: string)
    requires InFormat(arch, bin) && bin.opcode == 0x002 && arch == Arch5
    ensures Exact(arch, CallDis(bin), name,
                  bin.a <= 3, Bin(bin.opcode, bin.a, 0, bin.c))
  {
    assert PrintArgs(CallDis(bin), name) == [LinkReg(bin.a), Ref(name, Absolute)];
  }

  lemma RetComesBack(arch: Arch, bin: Bin, name: string)
    requires InFormat(arch, bin) && bin.opcode == 0x003
    ensures Exact(arch, RetDis(bin), name,
                  arch == Arch5 && bin.a <= 3 && bin.c <= 3, Bin(bin.opcode, bin.a, 0, bin.c))
  {
    assert PrintArgs(RetDis(bin), name) == [LinkReg(bin.a), LinkReg(bin.c)];
  }

  lemma CallsComesBack(arch: Arch, bin: Bin, name: string)
    requires bin.opcode == 0x004 && arch == Arch15
    ensures Exact(arch, Dis(Calls, BLANK, 0, bin.c), name, true,
                  Bin(bin.opcode, R0Field(arch), R0Field(arch), bin.c))
  {
    assert PrintArgs(Dis(Calls, BLANK, 0, bin.c), name) == [Ref(name, Absolute)];
    R0Assembles(arch, 0x004, Ref(name, Absolute));
  }

  lemma BlankReassembled(arch: Arch, op: Op, name: string)
    requires (op == Rets && arch == Arch15) || op == Nap
    ensures Reassembled(arch, Dis(op, BLANK, -1, 0), name)
         == AssembleLow(arch, if op == Rets then 0x005 else 0x001, R0, R0, Operand.Raw(0))
  {
    assert PrintArgs(Dis(op, BLANK, -1, 0), name) == [];
  }

  lemma BlankComesBack(arch: Arch, op: Op, bin: Bin, name: string)
    requires (op == Rets && arch == Arch15 && bin.opcode == 0x005) || (op == Nap && bin.opcode == 0x001)
    ensures Exact(arch, Dis(op, BLANK, -1, 0), name, true,
                  Bin(bin.opcode, R0Field(arch), R0Field(arch), 0))
  {
    BlankReassembled(arch, op, name);
    R0Assembles(arch, bin.opcode, Operand.Raw(0));
  }

  predicate ConstantExact(arch: Arch, decodeUnknown: bool, bin: Bin, name: string) {
    var d := DisConstant(arch, decodeUnknown, bin);
    d.Ok? ==> |d.value.operands| == 5
              && Exact(arch, d.value, name, AcceptedConstant(arch, decodeUnknown, bin), RewrittenConstant(arch, bin))
  }

  /** What the disassembler makes of an opcode without a fixed name, and what becomes of it. */
  predicate ConstantIs(arch: Arch, decodeUnknown: bool, bin: Bin, d: Dis, accepted: bool, back: Bin) {
    && DisConstant(arch, decodeUnknown, bin) == Ok(d)
    && AcceptedConstant(arch, decodeUnknown, bin) == accepted && RewrittenConstant(arch, bin) == back
  }

  function CallDis(bin: Bin): Dis {
    Dis(Call, [Some(LinkReg(bin.a)), None, None, None, None], 1, bin.c)
  }

  function RetDis(bin: Bin): Dis {
    Dis(Ret, [Some(LinkReg(bin.a)), None, Some(LinkReg(bin.c)), None, None], -1, 0)
  }

  lemma LinkConstants(arch: Arch, decodeUnknown: bool, bin: Bin)
    requires 0x001 <= bin.opcode <= 0x005
    ensures bin.opcode == 0x001 ==>
              ConstantIs(arch, decodeUnknown, bin, Dis(Nap, BLANK, -1, 0), true,
                           Bin(bin.opcode, R0Field(arch), R0Field(arch), 0))
    ensures bin.opcode == 0x002 ==>
              if arch == Arch5
              then ConstantIs(arch, decodeUnknown, bin, CallDis(bin), bin.a <= 3, Bin(bin.opcode, bin.a, 0, bin.c))
              else ConstantIs(arch, decodeUnknown, bin, DisRaw(bin), true, bin)
    ensures bin.opcode == 0x003 ==>
              ConstantIs(arch, decodeUnknown, bin, RetDis(bin), arch == Arch5 && bin.a <= 3 && bin.c <= 3,
                         Bin(bin.opcode, bin.a, 0, bin.c))
    ensures bin.opcode == 0x004 ==>
              if arch == Arch15
              then ConstantIs(arch, decodeUnknown, bin, Dis(Calls, BLANK, 0, bin.c), true,
                              Bin(bin.opcode, R0Field(arch), R0Field(arch), bin.c))
              else DisConstant(arch, decodeUnknown, bin).Err?
    ensures bin.opcode == 0x005 ==>
              if arch == Arch15
              then ConstantIs(arch, decodeUnknown, bin, Dis(Rets, BLANK, -1, 0), true,
                              Bin(bin.opcode, R0Field(arch), R0Field(arch), 0))
              else DisConstant(arch, decodeUnknown, bin).Err?
  {
    assert FixedName(bin.opcode).None?;
  }

  lemma FromConstant(arch: Arch, decodeUnknown: bool, bin: Bin, name: string, d: Dis, accepted: bool, back: Bin)
    requires ConstantIs(arch, decodeUnknown, bin, d, accepted, back)
    requires |d.operands| == 5 && Exact(arch, d, name, accepted, back)
    ensures ConstantExact(arch, decodeUnknown, bin, name)
  {
  }

  /** Calls, returns and nap. */
  lemma LinkIsExact(arch: Arch, decodeUnknown: bool, bin: Bin, name: string)
    requires InFormat(arch, bin) && 0x001 <= bin.opcode <= 0x005
    ensures ConstantExact(arch, decodeUnknown, bin, name)
  {
    var (r0, c) := (R0Field(arch), bin.opcode);
    LinkConstants(arch, decodeUnknown, bin);
    if c == 0x001 {
      BlankComesBack(arch, Nap, bin, name);
      FromConstant(arch, decodeUnknown, bin, name, Dis(Nap, BLANK, -1, 0), true, Bin(c, r0, r0, 0));
    } else if c == 0x002 && arch == Arch5 {
      CallComesBack(arch, bin, name);
      FromConstant(arch, decodeUnknown, bin, name, CallDis(bin), bin.a <= 3, Bin(c, bin.a, 0, bin.c));
    } else if c == 0x002 {
      RawComesBack(arch, bin, name);
      FromConstant(arch, decodeUnknown, bin, name, DisRaw(bin), true, bin);
    } else if c == 0x003 {
      RetComesBack(arch, bin, name);
      FromConstant(arch, decodeUnknown, bin, name, RetDis(bin), arch == Arch5 && bin.a <= 3 && bin.c <= 3,
                   Bin(c, bin.a, 0, bin.c));
    } else if arch == Arch15 && c == 0x004 {
      CallsComesBack(arch, bin, name);
      FromConstant(arch, decodeUnknown, bin, name, Dis(Calls, BLANK, 0, bin.c), true, Bin(c, r0, r0, bin.c));
    } else if arch == Arch15 {
      BlankComesBack(arch, Rets, bin, name);
      FromConstant(arch, decodeUnknown, bin, name, Dis(Rets, BLANK, -1, 0), true, Bin(c, r0, r0, 0));
    }
  }

  lemma OtherIsExact(arch: Arch, decodeUnknown: bool, bin: Bin, name: string)
    requires InFormat(arch, bin) && !(0x001 <= bin.opcode <= 0x005) && FixedName(bin.opcode).None?
    ensures ConstantExact(arch, decodeUnknown, bin, name)
  {
    if bin.opcode == 0x1E0 {
      TkipDisassembles(arch, bin);
      if DisTkip(arch, bin).Ok? {
        TkipComesBack(arch, bin, name);
      }
    }
    else if bin.opcode == 0x000 || !decodeUnknown { RawComesBack(arch, bin, name); }
    else { ThreeComesBack(arch, RawCode(bin.opcode), bin, name); }
  }

  lemma NamedIsExact(arch: Arch, decodeUnknown: bool, bin: Bin, name: string)
    requires InFormat(arch, bin) && FixedName(bin.opcode).Some?
    ensures ConstantExact(arch, decodeUnknown, bin, name)
  {
    var op := FixedName(bin.opcode).value;
    FixedNameOpcode(bin.opcode);
    if IsArith(op) {
      ThreeComesBack(arch, op, bin, name);
      assert DisConstant(arch, decodeUnknown, bin) == Ok(DisThree(arch, op, bin));
    } else {
      BranchComesBack(arch, op, bin, name);
      assert DisConstant(arch, decodeUnknown, bin) == Ok(DisBranch(arch, op, bin));
    }
    assert RewrittenConstant(arch, bin) == bin;
  }

  lemma ConstantIsExact(arch: Arch, decodeUnknown: bool, bin: Bin, name: string)
    requires InFormat(arch, bin)
    ensures ConstantExact(arch, decodeUnknown, bin, name)
  {
    if 0x001 <= bin.opcode <= 0x005 { LinkIsExact(arch, decodeUnknown, bin, name); }
    else if FixedName(bin.opcode).Some? { NamedIsExact(arch, decodeUnknown, bin, name); }
    else { OtherIsExact(arch, decodeUnknown, bin, name); }
  }

  lemma FoldedIsExact(arch: Arch, decodeUnknown: bool, bin: Bin, name: string)
    requires InFormat(arch, bin) && 2 <= bin.opcode / 0x100 % 0x10 <= 7
    ensures DisInsn(arch, decodeUnknown, bin).Ok?
    ensures Exact(arch, DisInsn(arch, decodeUnknown, bin).value, name,
                  Accepted(arch, decodeUnknown, bin), Rewritten(arch, bin))
  {
    var top := bin.opcode / 0x100 % 0x10;
    assert top == bin.opcode / 0x100;
    if top <= 5 {
      ExtendedComesBack(arch, ExtendedName(top), bin, name);
    } else {
      ExternalComesBack(arch, if top == 6 then Jnext else Jext, bin, name);
    }
  }

  /** The printed line of an instruction assembles exactly if the instruction is accepted, and then to
      the rewritten instruction. */
  lemma InsnComesBack(arch: Arch, decodeUnknown: bool, bin: Bin, name: string)
    requires InFormat(arch, bin) && DisInsn(arch, decodeUnknown, bin).Ok?
    ensures Exact(arch, DisInsn(arch, decodeUnknown, bin).value, name,
                  Accepted(arch, decodeUnknown, bin), Rewritten(arch, bin))
  {
    if 2 <= bin.opcode / 0x100 % 0x10 <= 7 {
      FoldedIsExact(arch, decodeUnknown, bin, name);
    } else {
      ConstantIsExact(arch, decodeUnknown, bin, name);
    }
  }

  /** Accepted instructions disassemble. */
  lemma AcceptedDisassembles(arch: Arch, decodeUnknown: bool, bin: Bin)
    requires InFormat(arch, bin) && Accepted(arch, decodeUnknown, bin)
    ensures DisInsn(arch, decodeUnknown, bin).Ok?
  {
    if bin.opcode == 0x1E0 {
      TkipDisassembles(arch, bin);
    }
  }

  /** The canonical instructions are those that are accepted and not changed. */
  lemma CanonicalIsFixed(arch: Arch, decodeUnknown: bool, bin: Bin)
    requires InFormat(arch, bin)
    ensures Canonical(arch, decodeUnknown, bin) <==> Accepted(arch, decodeUnknown, bin) && Rewritten(arch, bin) == bin
  {
    if bin.opcode == 0x1E0 {
      TkipCanonical(arch, bin);
    }
  }

  lemma TkipCanonical(arch: Arch, bin: Bin)
    requires InFormat(arch, bin)
    ensures ImmBase(arch) <= bin.b <= ImmBase(arch) + 3
            <==> TkipFlagsOf(arch, bin.b) <= 3 && EncodeImm(arch, TkipFlagsOf(arch, bin.b)) == bin.b
  {
  }

  lemma TkipRewritten(arch: Arch, flags: word)
    requires flags <= 3
    ensures var w := EncodeImm(arch, flags);
            InField(arch, w) && ImmBase(arch) <= w <= ImmBase(arch) + 3 && TkipFlagsOf(arch, w) == flags
  {
  }

  /** What an accepted instruction comes back as is canonical, jumps where it did and fits the format. */
  lemma RewrittenIsCanonical(arch: Arch, decodeUnknown: bool, bin: Bin)
    requires InFormat(arch, bin) && Accepted(arch, decodeUnknown, bin)
    ensures InFormat(arch, Rewritten(arch, bin)) && Canonical(arch, decodeUnknown, Rewritten(arch, bin))
    ensures Rewritten(arch, bin).opcode == bin.opcode
  {
    if bin.opcode == 0x1E0 {
      TkipRewritten(arch, TkipFlagsOf(arch, bin.b));
    }
  }

  /** An instruction that disassembles comes back from its own text exactly when it is canonical. */
  lemma CanonicalIsExact(arch: Arch, decodeUnknown: bool, bin: Bin, name: string)
    requires InFormat(arch, bin) && DisInsn(arch, decodeUnknown, bin).Ok?
    ensures var d := DisInsn(arch, decodeUnknown, bin).value;
            var r := Reassembled(arch, d, name);
            r.Ok? && Matches(d, r.value, bin, name) <==> Canonical(arch, decodeUnknown, bin)
  {
    InsnComesBack(arch, decodeUnknown, bin, name);
    CanonicalIsFixed(arch, decodeUnknown, bin);
    if HasLabel(DisInsn(arch, decodeUnknown, bin).value) {
      LabelKept(arch, decodeUnknown, bin);
    }
  }

  /** A jump target is never rewritten. */
  lemma LabelKept(arch: Arch, decodeUnknown: bool, bin: Bin)
    requires InFormat(arch, bin) && DisInsn(arch, decodeUnknown, bin).Ok?
             && HasLabel(DisInsn(arch, decodeUnknown, bin).value)
    ensures Rewritten(arch, bin).c == bin.c
  {
    if FixedName(bin.opcode).Some? {
      FixedNameOpcode(bin.opcode);
    }
  }

  /** Canonical instructions disassemble. */
  lemma CanonicalDisassembles(arch: Arch, decodeUnknown: bool, bin: Bin)
    requires InFormat(arch, bin) && Canonical(arch, decodeUnknown, bin)
    ensures DisInsn(arch, decodeUnknown, bin).Ok?
  {
    CanonicalIsFixed(arch, decodeUnknown, bin);
    AcceptedDisassembles(arch, decodeUnknown, bin);
  }
}
