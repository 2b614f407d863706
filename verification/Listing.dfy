/** The disassembler as a specification: how one instruction is printed, where labels stand and what
    they are called. */
module Listing {
  import opened Wrappers
  import opened Bits
  import opened Isa
  import opened Operands

  datatype DasmError = NotOnArch | TkipFlags | LabelOutOfBounds

  /** A disassembled instruction: five printable slots, of which labelref (unless negative) will hold
      the label of instruction number labeladdr. */
  datatype Dis = Dis(op: Op, operands: seq<Option<Operand>>, labelref: int, labeladdr: nat)

  function Std(arch: Arch, w: word): Option<Operand> {
    Some(DecodeOperand(arch, w))
  }

  function Shown(w: word): Option<Operand> {
    Some(Operand.Raw(w))
  }

  /** The mnemonics with one fixed opcode. */
  function FixedName(opcode: word): Option<Op> {
    match opcode
    case 0x101 => Some(Mul)  case 0x1C0 => Some(Add)  case 0x1C2 => Some(AddS)  case 0x1C1 => Some(AddC)
    case 0x1C3 => Some(AddSC)  case 0x1D0 => Some(Sub)  case 0x1D2 => Some(SubS)  case 0x1D1 => Some(SubC)
    case 0x1D3 => Some(SubSC)  case 0x130 => Some(Sra)  case 0x160 => Some(Or)  case 0x140 => Some(And)
    case 0x170 => Some(Xor)  case 0x120 => Some(Sr)  case 0x110 => Some(Sl)  case 0x1A0 => Some(Rl)
    case 0x1B0 => Some(Rr)  case 0x150 => Some(Nand)
    case 0x040 => Some(Jand)  case 0x041 => Some(Jnand)  case 0x050 => Some(Js)  case 0x051 => Some(Jns)
    case 0x0D0 => Some(Je)  case 0x0D1 => Some(Jne)  case 0x0D2 => Some(Jls)  case 0x0D3 => Some(Jges)
    case 0x0D4 => Some(Jgs)  case 0x0D5 => Some(Jles)  case 0x0D6 => Some(Jdn)  case 0x0D7 => Some(Jdpz)
    case 0x0D8 => Some(Jdp)  case 0x0D9 => Some(Jdnz)  case 0x0DA => Some(Jl)  case 0x0DB => Some(Jge)
    case 0x0DC => Some(Jg)  case 0x0DD => Some(Jle)
    case _ => None
  }

  /** Opcodes that carry a mask and a shift in their low byte. */
  function ExtendedName(top: nat): Op {
    if top == 2 then Srx else if top == 3 then Orx else if top == 4 then Jzx else Jnzx
  }

  function DisThree(arch: Arch, op: Op, bin: Bin): Dis {
    Dis(op, [Std(arch, bin.a), Std(arch, bin.b), Std(arch, bin.c), None, None], -1, 0)
  }

  function DisBranch(arch: Arch, op: Op, bin: Bin): Dis {
    Dis(op, [Std(arch, bin.a), Std(arch, bin.b), None, None, None], 2, bin.c)
  }

  function DisExtended(arch: Arch, op: Op, bin: Bin): Dis {
    var (mask, shift) := (Some(Imm(bin.opcode / 0x10 % 0x10)), Some(Imm(bin.opcode % 0x10)));
    if op == Srx || op == Orx then
      Dis(op, [mask, shift, Std(arch, bin.a), Std(arch, bin.b), Std(arch, bin.c)], -1, 0)
    else
      Dis(op, [mask, shift, Std(arch, bin.a), Std(arch, bin.b), None], 4, bin.c)
  }

  function DisExternal(op: Op, bin: Bin): Dis {
    Dis(op, [Some(Imm(bin.opcode % 0x100)), None, None, None, None], 1, bin.c)
  }

  function DisRaw(bin: Bin): Dis {
    Dis(RawCode(bin.opcode), [Shown(bin.a), Shown(bin.b), Shown(bin.c), None, None], -1, 0)
  }

  function DisTkip(arch: Arch, bin: Bin): Result<Dis, DasmError> {
    var flags := match arch case Arch5 => bin.b % 0x400 case Arch15 => bin.b % 0x800;
    var slots := [Std(arch, bin.a), None, Std(arch, bin.c), None, None];
    if flags == 1 then Ok(Dis(Tkiph, slots, -1, 0))
    else if flags == 3 then Ok(Dis(Tkiphs, slots, -1, 0))
    else if flags == 0 then Ok(Dis(Tkipl, slots, -1, 0))
    else if flags == 2 then Ok(Dis(Tkipls, slots, -1, 0))
    else Err(TkipFlags)
  }

  const BLANK: seq<Option<Operand>> := [None, None, None, None, None]

  /** disasm_constant_opcodes.  With decodeUnknown, operands of unknown opcodes are decoded too. */
  function DisConstant(arch: Arch, decodeUnknown: bool, bin: Bin): Result<Dis, DasmError> {
    var name := FixedName(bin.opcode);
    if name.Some? then Ok(if IsArith(name.value) then DisThree(arch, name.value, bin)
                           else DisBranch(arch, name.value, bin))
    else if bin.opcode == 0x002 then
      if arch == Arch5 then Ok(Dis(Call, [Some(LinkReg(bin.a)), None, None, None, None], 1, bin.c)) else Ok(DisRaw(bin))
    else if bin.opcode == 0x003 then
      Ok(Dis(Ret, [Some(LinkReg(bin.a)), None, Some(LinkReg(bin.c)), None, None], -1, 0))
    else if bin.opcode == 0x004 then
      if arch == Arch15 then Ok(Dis(Calls, BLANK, 0, bin.c)) else Err(NotOnArch)
    else if bin.opcode == 0x005 then
      if arch == Arch15 then Ok(Dis(Rets, BLANK, -1, 0)) else Err(NotOnArch)
    else if bin.opcode == 0x1E0 then DisTkip(arch, bin)
    else if bin.opcode == 0x001 then Ok(Dis(Nap, BLANK, -1, 0))
    else if bin.opcode == 0x000 || !decodeUnknown then Ok(DisRaw(bin))
    else Ok(DisThree(arch, RawCode(bin.opcode), bin))
  }

  function DisInsn(arch: Arch, decodeUnknown: bool, bin: Bin): (r: Result<Dis, DasmError>)
    ensures r.Ok? ==> |r.value.operands| == 5 && -1 <= r.value.labelref < 5
  {
    var top := bin.opcode / 0x100 % 0x10;
    if 2 <= top <= 5 then Ok(DisExtended(arch, ExtendedName(top), bin))
    else if top == 6 then Ok(DisExternal(Jnext, bin))
    else if top == 7 then Ok(DisExternal(Jext, bin))
    else DisConstant(arch, decodeUnknown, bin)
  }

  predicate HasLabel(d: Dis) {
    d.labelref >= 0
  }

  /** What emit_asm prints for one slot: the label where it belongs, else the operand if there is one. */
  function PrintSlot(d: Dis, slot: nat, name: string): seq<Operand>
    requires slot < |d.operands|
  {
    if d.labelref == slot then [Ref(name, Absolute)]
    else if d.operands[slot].Some? then [d.operands[slot].value]
    else []
  }

  function PrintArgs(d: Dis, name: string): seq<Operand>
    requires |d.operands| == 5
  {
    PrintSlot(d, 0, name) + PrintSlot(d, 1, name) + PrintSlot(d, 2, name)
    + PrintSlot(d, 3, name) + PrintSlot(d, 4, name)
  }

  // ---------------------------------------------------------------- label names

  function Digit(n: nat): char
    requires n < 10
  {
    "0123456789"[n]
  }

  /** `%u` */
  function Decimal(n: nat): (s: string)
    ensures |s| > 0
  {
    if n < 10 then [Digit(n)] else Decimal(n / 10) + [Digit(n % 10)]
  }

  function LabelName(n: nat): string {
    "L" + Decimal(n)
  }

  /** The number that a string of decimal digits stands for. */
  function Reading(s: string): nat {
    if s == "" then 0 else 10 * Reading(s[..|s| - 1]) + (s[|s| - 1] as nat - '0' as nat) % 10
  }

  /** A label's name is the letter L and its number, highest digit first. */
  lemma {:induction false} LabelNameReads(n: nat)
    ensures LabelName(n)[0] == 'L' && Reading(LabelName(n)[1..]) == n
  {
    DecimalReads(n);
    assert LabelName(n)[1..] == Decimal(n);
  }

  lemma {:induction false} DecimalReads(n: nat)
    ensures Reading(Decimal(n)) == n
  {
    if n >= 10 {
      DecimalReads(n / 10);
    } else {
      assert Reading("") == 0;
    }
  }

  lemma DigitDistinct(m: nat, n: nat)
    requires m < 10 && n < 10 && Digit(m) == Digit(n)
    ensures m == n
  {
  }

  lemma {:induction false} DecimalDistinct(m: nat, n: nat)
    requires Decimal(m) == Decimal(n)
    ensures m == n
  {
    var (s, t) := (Decimal(m), Decimal(n));
    assert s[|s| - 1] == Digit(m % 10) && t[|t| - 1] == Digit(n % 10);
    DigitDistinct(m % 10, n % 10);
    if m >= 10 && n >= 10 {
      assert s[..|s| - 1] == Decimal(m / 10) && t[..|t| - 1] == Decimal(n / 10);
      DecimalDistinct(m / 10, n / 10);
    }
  }

  /** Label names are distinct from each other and from the entry label. */
  lemma LabelNameDistinct(m: nat, n: nat)
    ensures LabelName(m) == LabelName(n) ==> m == n
    ensures LabelName(m) != "entry"
  {
    if LabelName(m) == LabelName(n) {
      assert LabelName(m)[1..] == Decimal(m) && LabelName(n)[1..] == Decimal(n);
      DecimalDistinct(m, n);
    }
    assert LabelName(m)[0] == 'L';
  }

  // ---------------------------------------------------------------- layout

  /** Whether some instruction refers to the label of instruction k. */
  predicate Targeted(diss: seq<Dis>, k: nat) {
    exists i :: 0 <= i < |diss| && HasLabel(diss[i]) && diss[i].labeladdr == k
  }

  /** The number of labels before instruction k, which is also the number in the name of its label. */
  function LabelRank(diss: seq<Dis>, k: nat): nat {
    if k == 0 then 0 else LabelRank(diss, k - 1) + if Targeted(diss, k - 1) then 1 else 0
  }

  function LabelOf(diss: seq<Dis>, k: nat): string {
    LabelName(LabelRank(diss, k))
  }

  function PrintInsn(diss: seq<Dis>, d: Dis): Line
    requires |d.operands| == 5
  {
    InsnLine(d.op, PrintArgs(d, LabelOf(diss, d.labeladdr)))
  }

  /** The label, if any, in front of each instruction. */
  function Labels(diss: seq<Dis>): seq<Option<string>> {
    seq(|diss|, k requires 0 <= k => if Targeted(diss, k) then Some(LabelOf(diss, k)) else None)
  }

  function InsnLines(diss: seq<Dis>): seq<Line>
    requires forall d :: d in diss ==> |d.operands| == 5
  {
    seq(|diss|, k requires 0 <= k < |diss| => PrintInsn(diss, diss[k]))
  }

  function LabelLines(name: Option<string>): seq<Line> {
    if name.Some? then [LabelLine(name.value)] else []
  }

  /** The first n instructions in order, each behind its label if it has one. */
  function Body(labels: seq<Option<string>>, insns: seq<Line>, n: nat): seq<Line>
    requires n <= |insns| == |labels|
  {
    if n == 0 then [] else Body(labels, insns, n - 1) + LabelLines(labels[n - 1]) + [insns[n - 1]]
  }

  function Disassembled(arch: Arch, decodeUnknown: bool, code: seq<Bin>): (r: Result<seq<Dis>, DasmError>)
    ensures r.Ok? <==> forall i :: 0 <= i < |code| ==> DisInsn(arch, decodeUnknown, code[i]).Ok?
    ensures r.Ok? ==> |r.value| == |code| && (forall d :: d in r.value ==> |d.operands| == 5)
                      && forall i :: 0 <= i < |code| ==> DisInsn(arch, decodeUnknown, code[i]) == Ok(r.value[i])
  {
    Values(DisInsns(arch, decodeUnknown, code))
  }

  function DisInsns(arch: Arch, decodeUnknown: bool, code: seq<Bin>): (r: seq<Result<Dis, DasmError>>)
    ensures |r| == |code|
    ensures forall k :: 0 <= k < |r| ==> r[k] == DisInsn(arch, decodeUnknown, code[k])
    ensures forall k :: 0 <= k < |r| && r[k].Ok? ==> |r[k].value.operands| == 5
  {
    seq(|code|, k requires 0 <= k < |code| => DisInsn(arch, decodeUnknown, code[k]))
  }

  predicate LabelsInBounds(diss: seq<Dis>) {
    forall i :: 0 <= i < |diss| && HasLabel(diss[i]) ==> diss[i].labeladdr < |diss|
  }

  function Header(arch: Arch): seq<Line> {
    [ArchLine(match arch case Arch5 => 5 case Arch15 => 15), StartLine("entry"), LabelLine("entry")]
  }

  /** The assembly text of an image. */
  function Disassemble(arch: Arch, decodeUnknown: bool, code: seq<Bin>): Result<seq<Line>, DasmError> {
    var diss :- Disassembled(arch, decodeUnknown, code);
    if LabelsInBounds(diss) then Ok(Header(arch) + Body(Labels(diss), InsnLines(diss), |diss|))
    else Err(LabelOutOfBounds)
  }
}
